/** Mapping and unmapping pages (kernel/mm/vmm.c, `__vmm_map_to_paddr_internal` and `vmm_unmap`),
    told as functions on the value of memory, and the flat page map they implement. */
module PageMap {
  import opened Lists
  import opened PageBitmap
  import opened PageTables
  import opened PageSteps

  datatype Attr = Attr(noExec: bool, noCache: bool, readOnly: bool, user: bool, save: bool, reuse: bool)

  /** Flags of the entries that lead to the page. */
  function TableFlags(attr: Attr): set<Flag> {
    {Present, Writable} + if attr.user then {User} else {}
  }

  /** Flags of the entry of the page itself. */
  function LeafFlags(attr: Attr): set<Flag> {
    TableFlags(attr)
    + (if attr.save then {} else {FromPmm})
    + (if attr.noExec then {NoExec} else {})
    + (if attr.noCache then {NoCache} else {})
    - (if attr.readOnly then {Writable} else {})
  }

  // The indices of virtual page number `v` at the four levels, and the tables on its path.

  function I4(v: nat): nat { v / 0x800_0000 % PTE_COUNT }
  function I3(v: nat): nat { v / 0x4_0000 % PTE_COUNT }
  function I2(v: nat): nat { v / 0x200 % PTE_COUNT }
  function I1(v: nat): nat { v % PTE_COUNT }

  function N1(r: Frame, v: nat): Node { Sub(Top(r), I4(v)) }
  function N2(r: Frame, v: nat): Node { Sub(N1(r, v), I3(v)) }
  function N3(r: Frame, v: nat): Node { Sub(N2(r, v), I2(v)) }

  /** A page of the address space, outside the recursive window. */
  predicate IsPage(v: nat) { v < PAGE_LIMIT && I4(v) != WINDOW }

  /** The entry that maps page `v` below PML4 `r`, zero if there is none
      (`__vmm_entry_from_vaddr`). */
  function Lookup(mem: Mem, r: Frame, v: nat): Entry {
    var big := Slot(mem, N2(r, v), I2(v));
    if Huge in big.flags then big else Slot(mem, N3(r, v), I1(v))
  }

  predicate InHuge(mem: Mem, r: Frame, v: nat) { Huge in Slot(mem, N2(r, v), I2(v)).flags }

  /** The four indices determine the page. */
  lemma IndicesDetermine(u: nat, v: nat)
    requires u < PAGE_LIMIT && v < PAGE_LIMIT
    requires I4(u) == I4(v) && I3(u) == I3(v) && I2(u) == I2(v) && I1(u) == I1(v)
    ensures u == v
  {
    FromIndices(u);
    FromIndices(v);
  }

  lemma FromIndices(v: nat)
    requires v < PAGE_LIMIT
    ensures v == I4(v) * 0x800_0000 + I3(v) * 0x4_0000 + I2(v) * 0x200 + I1(v)
  {
    var a, b, c := v / 0x200, v / 0x4_0000, v / 0x800_0000;
    assert b == a / 0x200 && c == b / 0x200;
    assert v == a * 0x200 + I1(v);
    assert a == b * 0x200 + I2(v);
    assert b == c * 0x200 + I3(v);
    assert c == I4(v);
  }

  /** Every queued task other than the one whose PML4 is loaded must sync before it runs
      (`__vmm_alert_tasks`). */
  function Alert(s: Space): Space {
    s.(tasks := seq(|s.tasks|, i requires 0 <= i < |s.tasks| =>
      if s.tasks[i].queued && s.tasks[i].vmm != s.cr3 then s.tasks[i].(stale := true) else s.tasks[i]))
  }

  /** Make sure there is a table below slot `i` of `n` and that its entry has `flags`. None means
      that the frame allocator had no frame left, which the kernel does not check. */
  function EnsureTable(s: Space, n: Node, i: nat, flags: set<Flag>): (r: Option<Space>)
    requires s.pm.Valid()
    ensures r.Some? ==> r.value.pm.Valid()
  {
    var e := Slot(s.mem, n, i);
    if e == ZERO then
      match FirstFit(s.pm, 1, 0)
      case None => None
      case Some(g) => Some(Grow(s, n, i, g, flags))
    else
      Some(Write(s, n, i, Entry(e.frame, e.flags + flags)))
  }

  /** The same for the PML4, whose changes the other tasks must hear of. */
  function EnsureTop(s: Space, i: nat, flags: set<Flag>): (r: Option<Space>)
    requires s.pm.Valid()
    ensures r.Some? ==> r.value.pm.Valid()
  {
    var e := Slot(s.mem, Top(s.cr3), i);
    match EnsureTable(s, Top(s.cr3), i, flags)
    case None => None
    case Some(t) => Some(if e == ZERO || e.flags - {Accessed, Dirty} != flags then Alert(t) else t)
  }

  function EnsurePath(s: Space, v: nat, flags: set<Flag>): (r: Option<Space>)
    requires s.pm.Valid()
    ensures r.Some? ==> r.value.pm.Valid()
  {
    match EnsureTop(s, I4(v), flags)
    case None => None
    case Some(s1) =>
      match EnsureTable(s1, N1(s.cr3, v), I3(v), flags)
      case None => None
      case Some(s2) => EnsureTable(s2, N2(s.cr3, v), I2(v), flags)
  }

  function MapOne(s: Space, v: nat, f: Frame, attr: Attr): (r: Option<Space>)
    requires s.pm.Valid()
    ensures r.Some? ==> r.value.pm.Valid()
  {
    match EnsurePath(s, v, TableFlags(attr))
    case None => None
    case Some(t) => Some(Write(t, N3(s.cr3, v), I1(v), Entry(f, LeafFlags(attr))))
  }

  /** Map pages `[v, v + num)` to frames `[f, f + num)`. */
  function MapPages(s: Space, v: nat, f: Frame, num: nat, attr: Attr): (r: Option<Space>)
    requires s.pm.Valid()
    ensures r.Some? ==> r.value.pm.Valid()
    decreases num
  {
    if num == 0 then Some(s)
    else match MapOne(s, v, f, attr)
      case None => None
      case Some(t) => MapPages(t, v + 1, f + 1, num - 1, attr)
  }

  /** Give the table below slot `i` of `n` back if it is empty. */
  function Collapse(s: Space, n: Node, i: nat): (t: Space)
    ensures s.pm.Valid() ==> t.pm.Valid()
  {
    if s.AllZero(Sub(n, i)) then Prune(s, n, i) else s
  }

  function CollapsePath(s: Space, v: nat): (t: Space)
    ensures s.pm.Valid() ==> t.pm.Valid()
  {
    var s3 := Collapse(s, N2(s.cr3, v), I2(v));
    CollapseTop(Collapse(s3, N1(s.cr3, v), I3(v)), v)
  }

  /** The same for the PML4, whose changes the other tasks must hear of. */
  function CollapseTop(s: Space, v: nat): (t: Space)
    ensures s.pm.Valid() ==> t.pm.Valid()
  {
    if s.AllZero(N1(s.cr3, v)) then Alert(Prune(s, Top(s.cr3), I4(v))) else s
  }

  /** Unmap one page; false if it is not mapped or its frame cannot be given back. */
  function UnmapOne(s: Space, v: nat, save: bool): (r: (Space, bool))
    ensures s.pm.Valid() ==> r.0.pm.Valid()
  {
    var e := Lookup(s.mem, s.cr3, v);
    if e == ZERO then (s, false)
    else if FromPmm in e.flags && !save && !s.pm.IsUsed(e.frame) then (s, false)
    else
      var t := if FromPmm in e.flags && !save then s.(pm := FreeOne(s.pm, e.frame)) else s;
      (CollapsePath(Write(t, N3(s.cr3, v), I1(v), ZERO), v), true)
  }

  /** Unmap pages `[v, v + num)`, stopping at the first that fails. */
  function UnmapPages(s: Space, v: nat, num: nat, save: bool): (r: (Space, bool))
    ensures s.pm.Valid() ==> r.0.pm.Valid()
    decreases num
  {
    if num == 0 then (s, true)
    else
      var (t, ok) := UnmapOne(s, v, save);
      if ok then UnmapPages(t, v + 1, num - 1, save) else (t, false)
  }
}
