/** Forking a task (kernel/sched/sched.c, kernel/sched/task.c `task_copy`): a new PML4, a copy of every
    region, and then the queue. Until it is queued, the new task is not told of changes of the loaded
    PML4. */
module Forks {
  import opened Lists
  import opened PageBitmap
  import opened PageTables
  import opened PageSteps
  import opened PageMap
  import opened PageRefinement
  import opened KernelPages
  import opened Regions
  import opened RegionCopies
  import opened TaskRegions
  import opened PageSync
  import opened KernelTop
  import opened Coherence

  /** PML4s that are not loaded are the same, and tasks are at most told to sync. */
  ghost predicate Beside(s: Space, t: Space) {
    && t.cr3 == s.cr3 && TasksFollow(s, t)
    && forall q: nat, j: nat :: s.IsRoot(q) && q != s.cr3 ==> Word(t.mem, q, j) == Word(s.mem, q, j)
  }

  lemma BesideTrans(s: Space, t: Space, u: Space)
    requires Beside(s, t) && Beside(t, u)
    ensures Beside(s, u)
  {
    FollowsRoots(s, t);
  }

  lemma FollowsBeside(s: Space, t: Space)
    requires Follows(s, t)
    ensures Beside(s, t)
  {
    RootsStayFollows(s, t);
    forall q: nat, j: nat | s.IsRoot(q) && q != s.cr3 ensures Word(t.mem, q, j) == Word(s.mem, q, j) {
      assert RootsStay(s, t, s.cr3);
    }
  }

  /** The PML4 `r` lacks an entry that the loaded one has. */
  ghost predicate Behind(s: Space, r: Frame) {
    exists j: nat :: KernelSlot(j) && Word(s.mem, s.cr3, j) != ZERO && Word(s.mem, r, j) == ZERO
  }

  lemma BehindDisagrees(s: Space, r: Frame)
    requires s.WF() && Behind(s, r)
    ensures !AgreeKernel(s.mem, r, s.cr3)
  {
    var j: nat :| KernelSlot(j) && Word(s.mem, s.cr3, j) != ZERO && Word(s.mem, r, j) == ZERO;
    assert !SameEntry(Word(s.mem, r, j), Word(s.mem, s.cr3, j));
  }

  /** What is lacking stays lacking while entries that are there stay. */
  lemma StaysBehind(s: Space, t: Space, r: Frame)
    requires t.cr3 == s.cr3 && OnlyGrows(s, t) && Behind(s, r)
             && forall j: nat :: Word(t.mem, r, j) == Word(s.mem, r, j)
    ensures Behind(t, r)
  {
    var j: nat :| KernelSlot(j) && Word(s.mem, s.cr3, j) != ZERO && Word(s.mem, r, j) == ZERO;
    assert KernelSlot(j) && Word(t.mem, s.cr3, j) != ZERO && Word(t.mem, r, j) == ZERO;
  }

  // ---- the kernel half of the PML4 follows the map

  /** Kernel slots after pages came and went: those that were taken are as before, and no other is taken
      than that of the page that the heap grew by. */
  ghost predicate SlotsFollow(s: Space, t: Space, grown: Option<nat>) {
    && OnlyGrows(s, t)
    && forall j: nat :: KernelSlot(j) && Word(s.mem, s.cr3, j) == ZERO ==>
         (Word(t.mem, s.cr3, j) != ZERO <==> grown.Some? && I4(grown.value) == j)
  }

  lemma SlotsAfter(s: Space, w: Space, t: Space, grown: Option<nat>)
    requires s.WF() && s.NoEmptyTable() && t.WF() && t.NoEmptyTable() && t.cr3 == w.cr3 == s.cr3
    requires OnlyGrows(s, w) && OnlyShrinks(w, t) && MapGrown(s, t, grown) && (grown.Some? ==> IsPage(grown.value))
    ensures SlotsFollow(s, t, grown)
  {
    hide Lookup, InHuge, IsPage, I4, PageTables.Space.WF, PageTables.Space.NoEmptyTable;
    forall j: nat | KernelSlot(j)
      ensures Word(t.mem, s.cr3, j) != ZERO <==>
              Word(s.mem, s.cr3, j) != ZERO || (grown.Some? && I4(grown.value) == j)
    {
      SlotUsed(s, j);
      SlotUsed(t, j);
      if u: nat :| Uses(s, j, u) { assert Uses(t, j, u); }
      if u: nat :| Uses(t, j, u) { assert Uses(s, j, u) || grown == Some(u); }
      if grown.Some? && I4(grown.value) == j { assert Uses(t, j, grown.value); }
    }
  }

  lemma AgreeZero(s: Space, r: Frame, i: nat)
    requires AgreeKernel(s.mem, r, s.cr3) && KernelSlot(i) && Word(s.mem, s.cr3, i) == ZERO
    ensures Word(s.mem, r, i) == ZERO
  {
    SameEntryFacts(Word(s.mem, r, i), Word(s.mem, s.cr3, i), ZERO);
  }

  /** A PML4 that is not loaded stays in agreement exactly if the slot of the page that the heap grew by, if
      it did, was taken; otherwise it is behind, and it stays behind. */
  lemma SlotsAgree(s: Space, t: Space, grown: Option<nat>, q: Frame)
    requires Beside(s, t) && SlotsFollow(s, t, grown) && (grown.Some? ==> KernelPage(grown.value))
    requires s.IsRoot(q) && q != s.cr3 && AgreeKernel(s.mem, q, s.cr3)
    ensures if grown.Some? && !SlotTaken(s, grown.value) then Behind(t, q)
            else Fixed(s, t) && AgreeKernel(t.mem, q, t.cr3)
  {
    hide AgreeKernel;
    if grown.Some? && !SlotTaken(s, grown.value) {
      var i := I4(grown.value);
      assert KernelSlot(i);
      AgreeZero(s, q, i);
      assert Word(t.mem, t.cr3, i) != ZERO && Word(t.mem, q, i) == ZERO;
    } else {
      assert Fixed(s, t);
      FixedAgrees(s, t, q);
    }
  }

  // ---- one copy

  /** Mapping for the kernel leaves PML4 entries that are there as they are. */
  lemma KernelGrows(s: Space, num: nat)
    requires s.WF() && s.NoEmptyTable() && Writables(s) && MapKernel(s, num).MappedAt?
    ensures var t := MapKernel(s, num).space; t.cr3 == s.cr3 && Writables(t) && OnlyGrows(s, t)
  {
    hide MapPages, Find, Lookup, InHuge, Writables, OnlyGrows, PageTables.Space.NoEmptyTable,
      PageTables.Space.NotTable;
    var m := MapKernel(s, num);
    FoundUnmapped(s, num);
    MarkingRun(s, m.frame, num);
    var s0 := s.(pm := s.pm.Mark(m.frame, num, true));
    assert Writables(s0) by { SameWritables(s, s0); }
    MapPagesTop(s0, m.page, m.frame, num, KERNEL_PAGES);
    GrowsMarked(s, s0, m.space);
  }

  lemma GrowsMarked(s: Space, s0: Space, t: Space)
    requires s0.mem == s.mem && s0.cr3 == s.cr3 && OnlyGrows(s0, t)
    ensures OnlyGrows(s, t)
  {
  }

  lemma GrowTrans(s: Space, t: Space, u: Space)
    requires t.cr3 == s.cr3 && OnlyGrows(s, t) && OnlyGrows(t, u)
    ensures OnlyGrows(s, u)
  {
  }

  /** Allocating the structure of a copy leaves PML4 entries that are there as they are. */
  lemma StructureGrows(s: Space, step: CopyStep)
    requires s.WF() && s.NoEmptyTable() && Writables(s) && Structure(s, step).Copies?
    ensures var t := Structure(s, step).space; t.cr3 == s.cr3 && Writables(t) && OnlyGrows(s, t)
  {
    hide MapKernel, Writables;
    WFPm(s);
    if step.grows && MapKernel(s, 1).MappedAt? { KernelGrows(s, 1); }
  }

  /** The pages are filled, or not, and unmapped again. */
  lemma FilledShrinks(s: Space, r: Region, at: nat, f: Frame, room: bool)
    requires Filling(s, r, at, f) && Writables(s)
    ensures var t := UnmapPages(Fill(s, r, at, room), at, r.num, true).0;
            t.cr3 == s.cr3 && Writables(t) && OnlyShrinks(s, t)
  {
    hide UnmapPages, Lookup, InHuge, IsPage, PageTables.Space.NotTable, PageTables.Space.NoEmptyTable, Fill,
      SameContents;
    var u := Fill(s, r, at, room);
    FillingPages(s, r, at, f, room);
    FilledPages(s, r, at, f, u);
    assert s.InTree(Top(s.cr3));
    forall j: nat ensures Word(u.mem, s.cr3, j) == Word(s.mem, s.cr3, j) {
      TopSlot(s.mem, s.cr3, j);
      TopSlot(u.mem, s.cr3, j);
    }
    UnmapPagesTop(u, at, r.num, true);
    ShrinkingWritables(s, UnmapPages(u, at, r.num, true).0);
  }

  lemma AdvancesGood(s: Space, t: Space)
    requires Good(s) && Advances(s, t) && Writables(t)
    ensures Good(t) && Beside(s, t)
  {
    hide PageTables.Space.NoEmptyTable, Writables, TablesStay, Undisturbed;
    FollowsKeeps(s, t);
    FollowsBeside(s, t);
  }

  /** What a copy does to the kernel half of the PML4: at most one slot is new, that of a page that the heap
      grew by. The pages that the copy is filled through leave no trace, wherever they are. */
  lemma CopySeen(s: Space, r: Region, step: CopyStep)
    requires Good(s) && Copyable(s, r) && CopyOne(s, r, step).Copies?
    ensures var t := CopyOne(s, r, step).space;
            Good(t) && Beside(s, t) && SlotsFollow(s, t, Growth(s, r, step))
    ensures Growth(s, r, step).Some? ==> FIRST <= Growth(s, r, step).value < WINDOW_PAGE
  {
    hide MapKernel, UnmapPages, Structure, Filling, MapGrown, Advances, Copyable, Lookup, Fill, Writables, Coherent,
      PageTables.Space.WF, PageTables.Space.NoEmptyTable, Grows, OnlyGrows, OnlyShrinks, SlotsFollow, Beside, FreshAt;
    WFPm(s);
    CopyKeeps(s, r, step);
    var t := CopyOne(s, r, step).space;
    AdvancesFacts(s, t);
    if MapKernel(s, r.num).MappedAt? {
      var m := MapKernel(s, r.num);
      MappingKernel(s, r.num);
      AdvancesFacts(s, m.space);
      WFPm(m.space);
      BeginsFilling(s, r);
      KeepsFilling(m.space, r, step, m.page, m.frame);
      KernelGrows(s, r.num);
      StructureGrows(m.space, step);
      var s2 := Structure(m.space, step).space;
      GrowTrans(s, m.space, s2);
      FilledShrinks(s2, r, m.page, m.frame, Structure(m.space, step).ok);
      assert t == UnmapPages(Fill(s2, r, m.page, Structure(m.space, step).ok), m.page, r.num, true).0 by {
        FillIs(s2, r, m.page);
      }
      if Growth(s, r, step).Some? { BeforeWindow(Growth(s, r, step).value); }
      SlotsAfter(s, s2, t, Growth(s, r, step));
    } else {
      NothingSeen(s);
    }
    AdvancesGood(s, t);
  }

  lemma FillIs(s: Space, r: Region, at: nat)
    requires s.pm.Valid()
    ensures FillCopy(s, r, at).0 == UnmapPages(Fill(s, r, at, true), at, r.num, true).0 && Fill(s, r, at, false) == s
  {
  }

  lemma NothingSeen(s: Space)
    ensures Beside(s, s) && SlotsFollow(s, s, None)
  {
  }

  /** A copy during which the heap does not grow cannot be seen from another PML4, whether it succeeds or
      not, and whether or not the slots of its pages hold other pages. */
  lemma CopyUnseen(s: Space, r: Region, step: CopyStep)
    requires Good(s) && Copyable(s, r) && !step.grows && CopyOne(s, r, step).Copies?
    ensures var t := CopyOne(s, r, step).space; Good(t) && Beside(s, t) && Fixed(s, t)
  {
    hide CopyOne, Good, Beside, Copyable, MapKernel;
    assert s.pm.Valid() by { GoodPm(s); }
    CopySeen(s, r, step);
  }

  lemma GoodPm(s: Space)
    requires Good(s)
    ensures s.pm.Valid()
  {
  }

  // ---- all regions

  /** The pages that the heap grows by while the regions are copied. */
  function Growths(s: Space, rs: seq<Region>, steps: seq<CopyStep>): seq<nat>
    requires s.pm.Valid() && |steps| == |rs|
    decreases |rs|
  {
    if rs == [] then []
    else
      match CopyOne(s, rs[0], steps[0])
      case Copies(t, _, true) => One(Growth(s, rs[0], steps[0])) + Growths(t, rs[1..], steps[1..])
      case _ => One(Growth(s, rs[0], steps[0]))
  }

  function One(h: Option<nat>): seq<nat> { if h.Some? then [h.value] else [] }

  /** The slots of these pages are taken. */
  ghost predicate AllTaken(s: Space, hs: seq<nat>) { forall h :: h in hs ==> SlotTaken(s, h) }

  ghost predicate AllKernel(hs: seq<nat>) { forall h :: h in hs ==> FIRST <= h < WINDOW_PAGE }

  /** The PML4 `q` has an entry in slot `i` where the loaded one has none. */
  ghost predicate Astray(s: Space, q: Frame, i: nat) {
    KernelSlot(i) && Word(s.mem, s.cr3, i) == ZERO && Word(s.mem, q, i) != ZERO
  }

  lemma AstrayDisagrees(s: Space, q: Frame, i: nat)
    requires Astray(s, q, i)
    ensures !AgreeKernel(s.mem, q, s.cr3)
  {
    if AgreeKernel(s.mem, q, s.cr3) { AgreeZero(s, q, i); }
  }

  lemma StaysAstray(s: Space, t: Space, grown: Option<nat>, q: Frame, i: nat)
    requires Beside(s, t) && SlotsFollow(s, t, grown) && Astray(s, q, i) && (grown.Some? ==> I4(grown.value) != i)
    requires s.IsRoot(q) && q != s.cr3
    ensures Astray(t, q, i)
  {
  }

  /** How a PML4 that is not loaded fares: in agreement or behind, by what the heap grew by; and astray where
      it was, unless the heap grew there. */
  ghost predicate Fares(s: Space, t: Space, hs: seq<nat>, q: Frame) {
    && (Behind(s, q) ==> Behind(t, q))
    && (AgreeKernel(s.mem, q, s.cr3) ==> if AllTaken(s, hs) then AgreeKernel(t.mem, q, t.cr3) else Behind(t, q))
    && (forall i: nat :: Astray(s, q, i) && NoneIn(hs, i) ==> Astray(t, q, i))
  }

  ghost predicate NoneIn(hs: seq<nat>, i: nat) { forall h :: h in hs ==> I4(h) != i }

  lemma BesideFacts(s: Space, t: Space, q: Frame)
    requires Beside(s, t) && s.IsRoot(q) && q != s.cr3
    ensures t.cr3 == s.cr3 && t.IsRoot(q) && forall j: nat :: Word(t.mem, q, j) == Word(s.mem, q, j)
  {
    FollowsRoots(s, t);
  }

  lemma OneFares(s: Space, t: Space, grown: Option<nat>, q: Frame)
    requires Beside(s, t) && SlotsFollow(s, t, grown) && (grown.Some? ==> FIRST <= grown.value < WINDOW_PAGE)
    requires s.IsRoot(q) && q != s.cr3
    ensures Fares(s, t, One(grown), q)
    ensures AgreeKernel(s.mem, q, s.cr3) && AllTaken(s, One(grown)) ==> Fixed(s, t)
  {
    hide AgreeKernel, KernelPage, Behind, I4, PageTables.Space.IsRoot, Beside;
    BesideFacts(s, t, q);
    if Behind(s, q) { StaysBehind(s, t, q); }
    if grown.Some? { BeforeWindow(grown.value); }
    if AgreeKernel(s.mem, q, s.cr3) { SlotsAgree(s, t, grown, q); }
    forall i: nat | Astray(s, q, i) && NoneIn(One(grown), i) ensures Astray(t, q, i) {
      assert grown.Some? ==> grown.value in One(grown);
      StaysAstray(s, t, grown, q, i);
    }
  }

  lemma SameTaken(s: Space, t: Space, hs: seq<nat>)
    requires t.cr3 == s.cr3 && Fixed(s, t) && AllKernel(hs)
    ensures AllTaken(s, hs) == AllTaken(t, hs)
  {
    hide I4, KernelPage, Word;
    forall h | h in hs ensures SlotTaken(s, h) == SlotTaken(t, h) {
      BeforeWindow(h);
      assert KernelSlot(I4(h));
    }
  }

  lemma FaresOn(s: Space, t: Space, u: Space, gs: seq<nat>, hs: seq<nat>, q: Frame)
    requires t.cr3 == s.cr3 && Fares(s, t, gs, q) && Fares(t, u, hs, q) && AllKernel(hs)
    requires AgreeKernel(s.mem, q, s.cr3) && AllTaken(s, gs) ==> Fixed(s, t)
    ensures Fares(s, u, gs + hs, q)
  {
    hide AgreeKernel, SlotTaken, Behind, I4, Astray, Fixed, AllKernel;
    if AgreeKernel(s.mem, q, s.cr3) && AllTaken(s, gs) { SameTaken(s, t, hs); }
    assert AllTaken(s, gs + hs) <==> AllTaken(s, gs) && AllTaken(s, hs) by { Both(s, gs, hs); }
    forall i: nat | Astray(s, q, i) && NoneIn(gs + hs, i) ensures Astray(u, q, i) {
      assert NoneIn(gs, i) && NoneIn(hs, i) by { BothIn(gs, hs, i); }
    }
  }

  lemma Both(s: Space, gs: seq<nat>, hs: seq<nat>)
    ensures AllTaken(s, gs + hs) <==> AllTaken(s, gs) && AllTaken(s, hs)
  {
    hide SlotTaken;
    assert forall h :: h in gs + hs <==> h in gs || h in hs;
  }

  lemma BothIn(gs: seq<nat>, hs: seq<nat>, i: nat)
    requires NoneIn(gs + hs, i)
    ensures NoneIn(gs, i) && NoneIn(hs, i)
  {
    hide I4;
    assert forall h :: h in gs || h in hs ==> h in gs + hs;
  }

  /** A task that is behind stays behind, and every other keeps up, whatever is copied. */
  lemma {:induction false} CopyAllSeen(s: Space, rs: seq<Region>, steps: seq<CopyStep>, q: Frame)
    requires Good(s) && s.pm.Valid() && |steps| == |rs| && AllCopyable(s, rs) && s.IsRoot(q) && q != s.cr3
    requires CopyAll(s, rs, steps).Copies?
    ensures var t := CopyAll(s, rs, steps).space;
            && Good(t) && Beside(s, t) && AllKernel(Growths(s, rs, steps)) && Fares(s, t, Growths(s, rs, steps), q)
    decreases |rs|
  {
    hide CopyOne, Good, AgreeKernel, AllTaken, Behind, Copyable, Fixed, SlotsFollow, Beside, PageTables.Space.IsRoot,
      Growth, Fares, Advances, MapGrown, Retains;
    if rs == [] {
      NothingSeen(s);
      OneFares(s, s, None, q);
    } else {
      CopySeen(s, rs[0], steps[0]) by { assert Copyable(s, rs[0]); }
      var c := CopyOne(s, rs[0], steps[0]);
      var t := c.space;
      BesideFacts(s, t, q);
      OneFares(s, t, Growth(s, rs[0], steps[0]), q);
      if c.ok {
        GoodTables(s);
        AllStillCopyable(s, rs, steps[0]);
        CopyAllSeen(t, rs[1..], steps[1..], q);
        var u := CopyAll(t, rs[1..], steps[1..]).space;
        BesideTrans(s, t, u);
        FaresOn(s, t, u, One(Growth(s, rs[0], steps[0])), Growths(t, rs[1..], steps[1..]), q);
      }
    }
  }

  lemma AllStillCopyable(s: Space, rs: seq<Region>, step: CopyStep)
    requires s.WF() && s.NoEmptyTable() && rs != [] && AllCopyable(s, rs) && CopyOne(s, rs[0], step).Copies?
    ensures AllCopyable(CopyOne(s, rs[0], step).space, rs[1..])
  {
    hide CopyOne, Copyable, MapGrown, Advances, Retains, Growth, Writables, Coherent;
    assert Copyable(s, rs[0]);
    CopyKeeps(s, rs[0], step);
    var t := CopyOne(s, rs[0], step).space;
    AdvancesFacts(s, t);
    GrownRetains(s, t, Growth(s, rs[0], step));
    forall i | 0 <= i < |rs| - 1 ensures Copyable(t, rs[1..][i]) {
      assert Copyable(s, rs[i + 1]);
      StillCopyable(s, t, rs[i + 1]);
    }
  }

  // ---- the fork

  /** A fork: a new PML4, synced through the lowest unmapped kernel page, the copies, and the queue if all
      went well. A copy that fails is forgotten: its PML4 stays, and never runs. */
  function Fork(s: Space, rs: seq<Region>, steps: seq<CopyStep>): (c: CopyResult)
    requires s.pm.Valid() && |steps| == |rs|
    ensures c.Copies? && c.ok ==> |c.regions| == |rs|
  {
    match Find(s, 1)
    case None => NoMemory
    case Some(v) =>
      match NewTask(s, v)
      case None => NoMemory
      case Some(t) =>
        match CopyAll(t, rs, steps)
        case NoMemory => NoMemory
        case Copies(u, cs, ok) =>
          var k := |s.tasks|;
          if ok && k < |u.tasks| then Copies(u.(tasks := u.tasks[k := u.tasks[k].(queued := true)]), cs, true)
          else Copies(u, cs, ok)
  }

  /** What is known when a fork begins: there is memory for a PML4 and its sync, and the regions are mapped
      to frames that hold no table. */
  ghost predicate ForkReady(s: Space, rs: seq<Region>)
    requires s.pm.Valid()
  {
    Find(s, 1).Some? && NewReady(s, Find(s, 1).value) && AllCopyable(s, rs)
  }

  /** The pages that the heap grows by during the fork. */
  function ForkGrowths(s: Space, rs: seq<Region>, steps: seq<CopyStep>): seq<nat>
    requires s.pm.Valid() && |steps| == |rs|
  {
    match Find(s, 1)
    case None => []
    case Some(v) =>
      match NewTask(s, v)
      case None => []
      case Some(t) => Growths(t, rs, steps)
  }

  /** Nothing that was in use is touched. */
  ghost predicate Untouched(s: Space, t: Space) {
    t.cr3 == s.cr3 && NoneFreed(s, t) && Undisturbed(s, t) && Retains(s, t)
  }

  /** Making the new PML4 touches nothing that was in use. */
  lemma SyncAdvances(s: Space, g: Frame, v: nat)
    requires s.WF() && s.NoEmptyTable() && s.pm.IsFree(g)
    requires SyncReady(s.(pm := s.pm.Mark(g, 1, true)), g, v)
    ensures var u := Sync(s.(pm := s.pm.Mark(g, 1, true)), g, v).value; Advances(s, u) && SameMap(s, u)
  {
    hide MapOne, UnmapOne, Lookup, InHuge, I4, PageTables.Space.NoEmptyTable, PageTables.Space.NotTable, OthersStay,
      TopGuarded, TablesStay;
    assert s.pm.RunFree(g, 1);
    MarkingRun(s, g, 1);
    var s0 := s.(pm := s.pm.Mark(g, 1, true));
    assert s0.Foreign(g);
    NotHuge(s0, v);
    MappingOne(s0, v, g, TEMPORARY);
    var s1 := MapOne(s0, v, g, TEMPORARY).value;
    MarkedAdvances(s, s0, s1);
    assert s1.Foreign(g) && Lookup(s1.mem, s1.cr3, v).frame == g;
    WritingForeign(s1, g, SyncedTable(s1.mem, g, s1.cr3));
    var s2 := Rewrite(s1, g);
    SameTablesFacts(s1, s2, {});
    UnmappingOne(s2, v, true);
    var u := UnmapOne(s2, v, true).0;
    assert Recedes(s2, u);
    assert MapGrown(s, u, None) by { SyncedMap(s, s1, s2, u, v, Entry(g, LeafFlags(TEMPORARY))); }
    BackAdvances(s, s1, s2, u, g, 1, None);
  }

  lemma SyncedMap(s: Space, s1: Space, s2: Space, u: Space, v: nat, e: Entry)
    requires u.cr3 == s2.cr3 == s1.cr3 == s.cr3 && Lookup(s.mem, s.cr3, v) == ZERO
    requires MapUpdated(s, s1, v, e) && SameMap(s1, s2) && MapUpdated(s2, u, v, ZERO)
    ensures MapGrown(s, u, None) && SameMap(s, u)
  {
    hide Lookup, InHuge, IsPage;
  }

  lemma NewTaskKeeps(s: Space, v: nat)
    requires Good(s) && s.pm.Valid() && NewReady(s, v) && NewTask(s, v).Some?
    ensures Untouched(s, NewTask(s, v).value)
  {
    hide Sync, Lookup, InHuge, I4, PageTables.Space.NoEmptyTable, PageTables.Space.NotTable, OthersStay, TopGuarded,
      TablesStay, Writables, Coherent, AgreeKernel;
    var g := FirstFit(s.pm, 1, 0).value;
    assert s.pm.IsFree(g);
    var s0 := s.(pm := s.pm.Mark(g, 1, true));
    SyncAdvances(s, g, v);
    TakingFrame(s, g);
    Syncing(s0, g, v);
    var u := Sync(s0, g, v).value;
    ForeignIsNoRoot(s0, u, g);
    NothingFreed(s, u);
    var t := NewTask(s, v).value;
    forall x: nat | s.Foreign(x) ensures t.Foreign(x) && t.mem[x] == s.mem[x] {
      assert x != g && u.Foreign(x);
      NewRootOnly(u, g, x);
    }
    SameRetained(s, u, t);
  }

  /** A new PML4 brings no other table into the tree. */
  lemma NewRootOnly(s: Space, g: Frame, x: Frame)
    requires s.NotTable(x) && x != g && g != s.cr3 && forall j: nat :: j < KERNEL_SLOT ==> Word(s.mem, g, j) == ZERO
    ensures s.(tasks := s.tasks + [TaskVm(g, false, false)]).NotTable(x)
  {
    var t := s.(tasks := s.tasks + [TaskVm(g, false, false)]);
    forall n | t.InTree(n) ensures Table(t.mem, n) != Some(x) { AddedNode(s, g, TaskVm(g, false, false), n); }
  }

  lemma SameRetained(s: Space, u: Space, t: Space)
    requires SameMap(s, u) && t.mem == u.mem
    ensures Retains(s, t)
  {
    hide Lookup, InHuge, IsPage;
  }

  lemma UntouchedCopyable(s: Space, t: Space, rs: seq<Region>)
    requires Untouched(s, t) && AllCopyable(s, rs)
    ensures AllCopyable(t, rs)
  {
    hide Copyable, Retains, Undisturbed;
    assert s.pm.Valid() && t.pm.Valid();
    forall i | 0 <= i < |rs| ensures Copyable(t, rs[i]) {
      assert Copyable(s, rs[i]);
      StillCopyable(s, t, rs[i]);
    }
  }

  /** Fork isolation: whether it succeeds or not, a fork leaves every frame in use, every table and every
      mapping as they were; and if it does, the child's regions are the parent's in order, with the same
      contents, in frames that were free and that no two of them share. */
  lemma ForkIsolated(s: Space, rs: seq<Region>, steps: seq<CopyStep>)
    requires Good(s) && s.pm.Valid() && |steps| == |rs| && ForkReady(s, rs) && Fork(s, rs, steps).Copies?
    ensures var c := Fork(s, rs, steps);
            Untouched(s, c.space) && (c.ok ==> Isolated(s, rs, c.space, c.regions))
  {
    hide NewTask, CopyAll, NewReady, Copyable, PageTables.Space.WF, PageTables.Space.NoEmptyTable, Coherent,
      Writables, SameMap, Advances, Retains, Undisturbed, NoneFreed, Isolated, AgreeKernel, Fixed, Find;
    var v := Find(s, 1).value;
    NewTaskKeeps(s, v);
    NewTaskGood(s, v);
    var t := NewTask(s, v).value;
    UntouchedCopyable(s, t, rs);
    CopiesIsolated(t, rs, steps);
    var c := CopyAll(t, rs, steps);
    UntouchedOn(s, t, c.space);
    if c.ok { IsolatedBefore(s, t, rs, c.space, c.regions); }
    if c.ok && |s.tasks| < |c.space.tasks| { Requeued(s, rs, c.space, c.regions, |s.tasks|); }
  }

  lemma UntouchedOn(s: Space, t: Space, u: Space)
    requires Untouched(s, t) && t.WF() && Advances(t, u) && Retains(t, u)
    ensures Untouched(s, u)
  {
    hide Retains, Undisturbed;
    NothingFreed(t, u);
    AdvancesFacts(t, u);
    UndisturbedTrans(s, t, u);
    RetainsTrans(s, t, u);
  }

  /** Copies of what was there before a step that touched nothing. */
  lemma IsolatedBefore(s: Space, t: Space, rs: seq<Region>, u: Space, cs: seq<Region>)
    requires Untouched(s, t) && u.pm.Valid() && AllCopyable(s, rs) && Isolated(t, rs, u, cs)
    ensures Isolated(s, rs, u, cs)
  {
    hide PageTables.Space.NotTable, RegionMapped, SameContents, ForeignRange, Undisturbed, Retains, Apart, FramesOf;
    forall i | 0 <= i < |rs| ensures SameContents(s, rs[i].frame, u, cs[i].frame, cs[i].num) {
      assert Copyable(s, rs[i]) && cs[i].num == rs[i].num;
      EarlierContents(s, t, rs[i].frame, u, cs[i].frame, rs[i].num);
    }
  }

  /** Whether a task is in the queue does not matter to memory. */
  lemma Requeued(s: Space, rs: seq<Region>, t: Space, cs: seq<Region>, k: nat)
    requires Untouched(s, t) && k < |t.tasks| && Isolated(s, rs, t, cs)
    ensures var u := t.(tasks := t.tasks[k := t.tasks[k].(queued := true)]);
            Untouched(s, u) && Isolated(s, rs, u, cs)
  {
    hide SameContents, Apart, FramesOf, Lookup, InHuge, IsPage;
    var u := t.(tasks := t.tasks[k := t.tasks[k].(queued := true)]);
    SameTasks(t, u, k);
    SameTree(t, u);
    assert forall g: nat :: t.pm.Valid() && t.Foreign(g) ==> u.Foreign(g);
    forall i | 0 <= i < |rs| ensures SameContents(s, rs[i].frame, u, cs[i].frame, cs[i].num) {
      MemContents(s, rs[i].frame, t, u, cs[i].frame, cs[i].num);
    }
  }

  lemma SameTasks(t: Space, u: Space, k: nat)
    requires k < |t.tasks| && u == t.(tasks := t.tasks[k := t.tasks[k].(queued := true)])
    ensures SameRoots(t, u)
  {
    forall f: nat ensures t.IsRoot(f) == u.IsRoot(f) {
      if t.IsRoot(f) && f != t.cr3 {
        var i :| 0 <= i < |t.tasks| && t.tasks[i].vmm == f;
        assert u.tasks[i] in u.tasks && u.tasks[i].vmm == f;
      }
      if u.IsRoot(f) && f != t.cr3 {
        var i :| 0 <= i < |u.tasks| && u.tasks[i].vmm == f;
        assert t.tasks[i] in t.tasks && t.tasks[i].vmm == f;
      }
    }
  }

  lemma MemContents(s: Space, f: Frame, t: Space, u: Space, c: Frame, num: nat)
    requires u.mem == t.mem && SameContents(s, f, t, c, num)
    ensures SameContents(s, f, u, c, num)
  {
    forall g: nat | c <= g < c + num ensures CopiedAt(s, u, c, f, g) { assert CopiedAt(s, t, c, f, g); }
  }

  /** A fork keeps all tasks coherent if and only if it fails, or the slots of the page that the new PML4 was
      synced through and of the pages that the heap grew by were taken before: the copies themselves cannot
      be seen. (If the first was not taken, the heap may by chance grow there into the same frame.) */
  lemma Forking(s: Space, rs: seq<Region>, steps: seq<CopyStep>)
    requires Good(s) && s.pm.Valid() && |steps| == |rs| && ForkReady(s, rs) && Fork(s, rs, steps).Copies?
    ensures var c, v, hs := Fork(s, rs, steps), Find(s, 1).value, ForkGrowths(s, rs, steps);
            var t := c.space;
            && t.cr3 == s.cr3 && |t.tasks| == |s.tasks| + 1 && t.WF() && t.NoEmptyTable()
            && (!c.ok ==> Good(t)) && (c.ok ==> t.tasks[|s.tasks|].queued)
            && (SlotTaken(s, v) || NoneIn(hs, I4(v)) ==>
                  (Good(t) <==> c.ok ==> SlotTaken(s, v) && AllTaken(s, hs)))
  {
    hide NewTask, CopyAll, NewReady, Copyable, AgreeKernel, SlotTaken, PageTables.Space.WF, NoneIn, I4, AllTaken,
      Find, PageTables.Space.NoEmptyTable, Coherent, Writables, SameMap, Retains, NoneFreed, Undisturbed, Fares,
      Growths, AllKernel, Behind, Fixed;
    var v := Find(s, 1).value;
    NewTaskGood(s, v);
    NewTaskKeeps(s, v);
    var k, u := |s.tasks|, NewTask(s, v).value;
    var q := u.tasks[k].vmm;
    assert u.tasks[k] in u.tasks && u.IsRoot(q);
    UntouchedCopyable(s, u, rs);
    CopyAllSeen(u, rs, steps, q);
    var c, hs := CopyAll(u, rs, steps), Growths(u, rs, steps);
    assert c.space.tasks[k] == u.tasks[k] && |c.space.tasks| == |u.tasks|;
    if c.ok {
      Enqueuing(c.space, k);
      if SlotTaken(s, v) {
        SameTaken(s, u, hs);
        FaresAgrees(u, c.space, hs, q);
      } else if NoneIn(hs, I4(v)) {
        NewAstray(s, v);
        FaresAstray(u, c.space, hs, q, I4(v));
      }
    }
  }

  lemma FaresAgrees(s: Space, t: Space, hs: seq<nat>, q: Frame)
    requires Fares(s, t, hs, q) && AgreeKernel(s.mem, q, s.cr3) && t.WF()
    ensures AgreeKernel(t.mem, q, t.cr3) <==> AllTaken(s, hs)
  {
    hide AgreeKernel, AllTaken, Behind, Astray, NoneIn;
    if !AllTaken(s, hs) { BehindDisagrees(t, q); }
  }

  lemma FaresAstray(s: Space, t: Space, hs: seq<nat>, q: Frame, i: nat)
    requires Fares(s, t, hs, q) && Astray(s, q, i) && NoneIn(hs, i)
    ensures !AgreeKernel(t.mem, q, t.cr3)
  {
    hide AgreeKernel, AllTaken, Behind, NoneIn;
    AstrayDisagrees(t, q, i);
  }

  /** The sync of a new PML4 through a page whose slot is not taken. */
  lemma NewAstray(s: Space, v: nat)
    requires Good(s) && s.pm.Valid() && NewReady(s, v) && NewTask(s, v).Some? && !SlotTaken(s, v)
    ensures var t := NewTask(s, v).value; |t.tasks| > |s.tasks| && Astray(t, t.tasks[|s.tasks|].vmm, I4(v))
  {
    hide Sync, AgreeKernel, I3, I2, I1, Lookup, InHuge, TopGuarded, Writables, PageTables.Space.NoEmptyTable;
    var g := FirstFit(s.pm, 1, 0).value;
    assert s.pm.IsFree(g);
    TakingFrame(s, g);
    var s0 := s.(pm := s.pm.Mark(g, 1, true));
    Syncing(s0, g, v);
    var u := Sync(s0, g, v).value;
    SyncDangles(s0, g, v);
    AnchoredExact(u, v) by { assert IsPage(v); }
    SlotStaysFree(s0, u, v);
  }

  /** The slot of an unmapped page is as it was if all translations are. */
  lemma SlotStaysFree(s: Space, t: Space, v: nat)
    requires s.WF() && s.NoEmptyTable() && t.WF() && t.NoEmptyTable() && t.cr3 == s.cr3 && SameMap(s, t)
    requires KernelPage(v) && !SlotTaken(s, v)
    ensures !SlotTaken(t, v)
  {
    hide Lookup, InHuge, IsPage, I4, PageTables.Space.WF, PageTables.Space.NoEmptyTable;
    assert KernelSlot(I4(v)) by { KernelSlots(v); }
    SlotUsed(s, I4(v));
    SlotUsed(t, I4(v));
    assert forall u: nat :: Uses(t, I4(v), u) ==> Uses(s, I4(v), u);
  }

  lemma KernelSlots(v: nat)
    requires KernelPage(v)
    ensures KernelSlot(I4(v))
  {
  }

  /** The child of a fork: while a kernel region of the parent is mapped, a switch to the child changes the
      translation of all its pages, since the copies have frames of their own. */
  lemma ForkedRegions(s0: Space, rs: seq<Region>, steps: seq<CopyStep>, s: Space, k: nat, v: nat, kernelEnd: nat,
      i: nat, u: nat)
    requires Good(s0) && s0.pm.Valid() && |steps| == |rs| && ForkReady(s0, rs)
    requires Fork(s0, rs, steps).Copies? && Fork(s0, rs, steps).ok
    requires Good(s) && Activable(s, k, v) && s.tasks[k].vmm != s.cr3 && i < |rs| && RegionMapped(s, rs[i])
    requires Covers(rs[i], u) && KernelPage(u)
    requires var cs := Fork(s0, rs, steps).regions;
             && RegionsFit(s, k, v, cs) && PagesApart(cs)
             && Switch(s, k, v, cs, kernelEnd).Looped? && Switch(s, k, v, cs, kernelEnd).ok
    ensures var cs := Fork(s0, rs, steps).regions; var t := Switch(s, k, v, cs, kernelEnd).space;
            Lookup(t.mem, t.cr3, u).frame != Lookup(s.mem, s.cr3, u).frame && !SameKernel(s, t)
  {
    hide Switch, Fork, SyncReady, SlotTaken, RegionsFit, PagesApart, Lookup, PageTables.Space.NoEmptyTable,
      SameContents, KernelPage, Good, NewReady, Untouched, Apart, Find, FramesOf;
    ForkIsolated(s0, rs, steps);
    var cs := Fork(s0, rs, steps).regions;
    assert cs[i] == rs[i].(frame := cs[i].frame);
    assert cs[i].frame != rs[i].frame by {
      assert Copyable(s0, rs[i]) && s0.Foreign(rs[i].frame);
      HoldsFirst(cs, i);
    }
    ForkedSwitch(s, k, v, rs, cs, kernelEnd, i, u);
  }

  lemma {:induction false} HoldsFirst(rs: seq<Region>, i: nat)
    requires i < |rs| && rs[i].frame > 0 && rs[i].num > 0
    ensures rs[i].frame in FramesOf(rs)
    decreases i
  {
    if i > 0 { HoldsFirst(rs[1..], i - 1); }
  }
}
