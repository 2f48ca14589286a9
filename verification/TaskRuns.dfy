/** Runs of the kernel with many address spaces: any sequence of mapping, unmapping, forks, switches and
    exits. */
module TaskRuns {
  import opened Lists
  import opened PageBitmap
  import opened PageTables
  import opened PageSteps
  import opened PageMap
  import opened PageRefinement
  import opened PageRanges
  import opened KernelPages
  import opened Regions
  import opened RegionCopies
  import opened TaskRegions
  import opened PageSync
  import opened KernelTop
  import opened Coherence
  import opened Forks
  import opened ForkRoom

  /** Memory with its tasks, and the regions of each task. */
  datatype Machine = Machine(space: Space, regions: seq<seq<Region>>)

  ghost predicate Inv(m: Machine) { Good(m.space) && |m.regions| == |m.space.tasks| }

  datatype Op =
    | Map(page: nat, frame: Frame, num: nat, attr: Attr)
    | Unmap(page: nat, num: nat, save: bool)
    | ForkTask(parent: nat, steps: seq<CopyStep>)
    | SwitchTo(task: nat, kernelEnd: nat)
    | Leave(task: nat)
    | Touch(slot: nat)

  /** The page that a sync goes through. */
  function SyncPage(s: Space): nat { if Find(s, 1).Some? then Find(s, 1).value else 0 }

  /** What the kernel relies on when it takes a step. A fork is of the task whose PML4 is loaded, and the PML4
      slot of the lowest unmapped kernel page has room for what it maps. A switch that must sync finds
      that page not to be the first of its slot. */
  ghost predicate Allowed(m: Machine, op: Op)
    requires m.space.pm.Valid()
  {
    var s := m.space;
    match op
    case Map(v, _, num, _) => SmallPages(s, v, num)
    case Unmap(v, num, save) => SmallPages(s, v, num) && FreeSafe(s, v, num, save)
    case ForkTask(p, steps) =>
      && p < |s.tasks| && p < |m.regions| && s.tasks[p].vmm == s.cr3 && |steps| == |m.regions[p]|
      && ForkReady(s, m.regions[p]) && SlotRoom(s, MostPages(m.regions[p]) + |m.regions[p]|)
    case SwitchTo(k, _) =>
      && k < |m.regions| && k < |s.tasks| && s.tasks[k].queued && RegionsFit(s, k, SyncPage(s), m.regions[k])
      && (s.tasks[k].stale && s.tasks[k].vmm != s.cr3 ==>
            SyncReady(s, s.tasks[k].vmm, SyncPage(s)) && SlotStart(SyncPage(s)) < SyncPage(s))
    case Leave(k) =>
      && k < |s.tasks| && k < |m.regions| && s.tasks[k].vmm != s.cr3 && NoTables(s, m.regions[k])
      && forall i :: 0 <= i < |s.tasks| && i != k ==> s.tasks[i].vmm != s.tasks[k].vmm
    case Touch(i) => s.HasSlot(Top(s.cr3), i) && IsTable(Slot(s.mem, Top(s.cr3), i))
  }

  /** The state after a step; None if the frame allocator ran dry. */
  ghost function Apply(m: Machine, op: Op): Option<Machine>
    requires m.space.pm.Valid() && Allowed(m, op)
  {
    var s := m.space;
    match op
    case Map(v, f, num, attr) => (
      match MapPages(s, v, f, num, attr)
      case None => None
      case Some(t) => Some(m.(space := t)))
    case Unmap(v, num, save) => Some(m.(space := UnmapPages(s, v, num, save).0))
    case ForkTask(p, steps) => (
      match Fork(s, m.regions[p], steps)
      case NoMemory => None
      case Copies(t, cs, _) => Some(Machine(t, m.regions + [cs])))
    case SwitchTo(k, kernelEnd) => (
      match Switch(s, k, SyncPage(s), m.regions[k], kernelEnd)
      case NoTable => None
      case Looped(t, _, _) => Some(m.(space := t)))
    case Leave(k) => Some(Machine(Exit(s, k, m.regions[k]), m.regions[..k] + m.regions[k + 1..]))
    case Touch(i) =>
      var e := Slot(s.mem, Top(s.cr3), i);
      Some(m.(space := Write(s, Top(s.cr3), i, Entry(e.frame, e.flags + {Accessed}))))
  }

  ghost predicate Reaches(m: Machine, ops: seq<Op>, t: Machine)
    decreases |ops|
  {
    if ops == [] then t == m
    else m.space.pm.Valid() && Allowed(m, ops[0]) && Apply(m, ops[0]).Some?
         && Reaches(Apply(m, ops[0]).value, ops[1..], t)
  }

  /** Mapping and unmapping keep the tasks coherent. */
  lemma PagesGood(s: Space, v: nat, f: Frame, num: nat, attr: Attr)
    requires Good(s) && SmallPages(s, v, num) && MapPages(s, v, f, num, attr).Some?
    ensures Good(MapPages(s, v, f, num, attr).value) && |MapPages(s, v, f, num, attr).value.tasks| == |s.tasks|
  {
    hide MapPages, Coherent, PageTables.Space.NoEmptyTable, SmallPages, Writables, TopGuarded, OthersStay,
      RangeMapped, Undisturbed;
    MappingPages(s, v, f, num, attr);
    MapPagesTop(s, v, f, num, attr);
    FollowsKeeps(s, MapPages(s, v, f, num, attr).value);
  }

  lemma UnmapGood(s: Space, v: nat, num: nat, save: bool)
    requires Good(s) && SmallPages(s, v, num) && FreeSafe(s, v, num, save)
    ensures Good(UnmapPages(s, v, num, save).0) && |UnmapPages(s, v, num, save).0.tasks| == |s.tasks|
  {
    hide UnmapPages, Coherent, PageTables.Space.NoEmptyTable, SmallPages, FreeSafe, Writables, TopGuarded, OthersStay,
      RangeUnmapped, OnlyShrinks;
    var k := UnmappingPages(s, v, num, save);
    UnmapPagesTop(s, v, num, save);
    ShrinkingWritables(s, UnmapPages(s, v, num, save).0);
    FollowsKeeps(s, UnmapPages(s, v, num, save).0);
  }

  lemma SwitchTasks(s: Space, k: nat, v: nat, rs: seq<Region>, kernelEnd: nat)
    requires Good(s) && Activable(s, k, v) && RegionsFit(s, k, v, rs) && Switch(s, k, v, rs, kernelEnd).Looped?
    ensures |Switch(s, k, v, rs, kernelEnd).space.tasks| == |s.tasks|
  {
    hide Activate, MapRegions, Coherent, PageTables.Space.NoEmptyTable, Writables, TopGuarded, OthersStay,
      RegionsMapped, SyncReady, SlotTaken;
    if s.tasks[k].vmm != s.cr3 {
      Activating(s, k, v);
      ActivateTasks(s, k, v);
      MappingRegions(Activate(s, k, v).value, rs, kernelEnd);
    }
  }

  lemma ActivateTasks(s: Space, k: nat, v: nat)
    requires Good(s) && Activable(s, k, v) && Activate(s, k, v).Some?
    ensures |Activate(s, k, v).value.tasks| == |s.tasks|
  {
    hide Sync, AgreeKernel, Coherent, PageTables.Space.NoEmptyTable, Writables, SlotTaken, SyncReady;
    if s.tasks[k].vmm != s.cr3 && s.tasks[k].stale { SyncCoherent(s, k, v); }
  }

  /** A page that is not the first of its slot will do for a sync. */
  lemma PageActivates(s: Space, k: nat)
    requires Good(s) && k < |s.tasks| && s.tasks[k].queued
    requires s.tasks[k].stale && s.tasks[k].vmm != s.cr3 ==>
               SyncReady(s, s.tasks[k].vmm, SyncPage(s)) && SlotStart(SyncPage(s)) < SyncPage(s)
    ensures s.pm.Valid() && Activable(s, k, SyncPage(s))
  {
    hide SyncReady, SlotTaken, Coherent, Writables, PageTables.Space.NoEmptyTable;
    if s.tasks[k].stale && s.tasks[k].vmm != s.cr3 { LowestTaken(s, SyncPage(s)); }
  }

  /** Every step keeps the tasks coherent. */
  lemma StepGood(m: Machine, op: Op)
    requires Inv(m) && m.space.pm.Valid() && Allowed(m, op) && Apply(m, op).Some?
    ensures Inv(Apply(m, op).value)
  {
    hide MapPages, UnmapPages, Fork, Switch, Exit, Good, SmallPages, FreeSafe, SlotTaken, AllTaken, ForkReady,
      RegionsFit, SyncReady, NoTables, SlotRoom, SyncPage, NoneIn, MostPages, Activable;
    var s := m.space;
    match op
    case Map(v, f, num, attr) => PagesGood(s, v, f, num, attr);
    case Unmap(v, num, save) => UnmapGood(s, v, num, save);
    case ForkTask(p, steps) =>
      RoomSuffices(s, m.regions[p], steps);
      Forking(s, m.regions[p], steps);
    case SwitchTo(k, kernelEnd) =>
      PageActivates(s, k);
      Switching(s, k, SyncPage(s), m.regions[k], kernelEnd);
      SwitchTasks(s, k, SyncPage(s), m.regions[k], kernelEnd);
    case Leave(k) =>
      Exiting(s, k, m.regions[k]);
      ExitTasks(s, k, m.regions[k]);
    case Touch(i) => Touching(s, i);
  }

  lemma ExitTasks(s: Space, k: nat, rs: seq<Region>)
    requires k < |s.tasks|
    ensures |Exit(s, k, rs).tasks| == |s.tasks| - 1
  {
  }

  /** Over every run each queued task whose PML4 is not loaded is stale or agrees with the loaded kernel
      half. */
  lemma {:induction false} RunGood(m: Machine, ops: seq<Op>, t: Machine)
    requires Inv(m) && Reaches(m, ops, t)
    ensures Inv(t)
    decreases |ops|
  {
    hide Inv, Allowed, Apply;
    if ops != [] {
      StepGood(m, ops[0]);
      RunGood(Apply(m, ops[0]).value, ops[1..], t);
    }
  }
}
