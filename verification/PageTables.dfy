/** Four-level page tables in physical memory (kernel/mm/vmm.c, kernel/inc/mm/paging.h).

    A table is a physical frame seen as 512 entries. Several address spaces live in the same
    memory: the loaded one (`cr3`) and one PML4 per task, which share the tables of the kernel
    half. A `Node` names a table by the indices that lead to it from a PML4. */
module PageTables {
  import opened Lists
  import opened PageBitmap

  const PTE_COUNT := 512
  /** PML4 slot that points back at the PML4. */
  const WINDOW := 510
  /** First PML4 slot of the kernel half. */
  const KERNEL_SLOT := 256
  /** Number of virtual pages that 36 index bits can name. */
  const PAGE_LIMIT := 0x10_0000_0000

  /** Bits of a paging entry, and bit 9, which the kernel uses to mark frames it must give back. */
  datatype Flag =
    | Present | Writable | User | WriteThrough | NoCache | Accessed | Dirty | Huge | Global | FromPmm | NoExec

  datatype Entry = Entry(frame: Frame, flags: set<Flag>)

  const ZERO := Entry(0, {})

  type Mem = map<Frame, seq<Entry>>

  datatype Node = Top(root: Frame) | Sub(parent: Node, index: nat) {
    function Depth(): nat { if Top? then 0 else parent.Depth() + 1 }
    function Root(): Frame { if Top? then root else parent.Root() }
  }

  /** What the virtual memory manager knows of a task: its PML4, whether that PML4 must be synced
      before it is loaded, and whether the task has been put in the scheduler queue. */
  datatype TaskVm = TaskVm(vmm: Frame, stale: bool, queued: bool)

  datatype Space = Space(mem: Mem, cr3: Frame, pm: Bitmap, tasks: seq<TaskVm>) {
    predicate IsRoot(f: Frame) {
      f == cr3 || exists t :: t in tasks && t.vmm == f
    }

    /** Slot `i` of node `n` belongs to the address space of `n`: the window slot does not, and the
        kernel half is only followed from the loaded PML4. */
    predicate HasSlot(n: Node, i: nat)
      decreases n, 1
    {
      InTree(n) && i < PTE_COUNT && (n.Top? ==> i != WINDOW && (n.root == cr3 || i < KERNEL_SLOT))
    }

    /** `n` names a place where a table may be. */
    predicate InTree(n: Node)
      decreases n, 0
    {
      match n
      case Top(r) => IsRoot(r)
      case Sub(m, i) => HasSlot(m, i) && m.Depth() < 3
    }

    /** Memory holds well-formed, unshared tables that the frame allocator will not hand out. */
    ghost predicate WF() {
      && pm.Valid()
      && (forall f: nat :: pm.Covers(f) ==> IsFrame(mem, f))
      && (forall n :: InTree(n) && Table(mem, n).Some? ==>
            IsFrame(mem, Table(mem, n).value) && !pm.IsFree(Table(mem, n).value))
      && (forall n, m :: InTree(n) && InTree(m) && Table(mem, n).Some? && Table(mem, n) == Table(mem, m) ==> n == m)
      && (forall r: nat :: IsRoot(r) ==> IsTable(Word(mem, r, WINDOW)) && Word(mem, r, WINDOW).frame == r)
      && (forall n, i :: HasSlot(n, i) ==> EntryOk(Slot(mem, n, i), n.Depth()))
    }

    /** No table below a PML4 is empty. */
    ghost predicate NoEmptyTable() {
      forall n :: InTree(n) && n.Sub? && Table(mem, n).Some? ==> !AllZero(n)
    }

    /** No table lies in this frame. */
    ghost predicate NotTable(f: Frame) {
      forall n :: InTree(n) ==> Table(mem, n) != Some(f)
    }

    /** An allocated frame, or one outside the allocator, that holds no table. */
    ghost predicate Foreign(f: Frame)
      requires pm.Valid()
    {
      f in mem && NotTable(f) && !pm.IsFree(f)
    }

    predicate AllZero(n: Node) {
      forall i :: 0 <= i < PTE_COUNT ==> Slot(mem, n, i) == ZERO
    }
  }

  lemma WFPm(s: Space)
    requires s.WF()
    ensures s.pm.Valid()
  {
  }

  predicate IsFrame(mem: Mem, f: Frame) {
    f in mem && |mem[f]| == PTE_COUNT
  }

  predicate EntryOk(e: Entry, depth: nat) {
    e == ZERO || (Present in e.flags && (depth != 2 ==> Huge !in e.flags))
  }

  /** The entry leads to a table of the next level. */
  predicate IsTable(e: Entry) {
    Present in e.flags && Huge !in e.flags
  }

  function Word(mem: Mem, f: Frame, i: nat): Entry {
    if f in mem && i < |mem[f]| then mem[f][i] else ZERO
  }

  function SetWord(mem: Mem, f: Frame, i: nat, e: Entry): Mem {
    if f in mem && i < |mem[f]| then mem[f := mem[f][i := e]] else mem
  }

  function ZeroTable(): (t: seq<Entry>)
    ensures |t| == PTE_COUNT && forall i :: 0 <= i < PTE_COUNT ==> t[i] == ZERO
  {
    seq(PTE_COUNT, i => ZERO)
  }

  /** The frame of the table named by `n`, found by following entries from its PML4. */
  function Table(mem: Mem, n: Node): Option<Frame>
    decreases n, 0
  {
    match n
    case Top(r) => Some(r)
    case Sub(m, i) => if IsTable(Slot(mem, m, i)) then Some(Slot(mem, m, i).frame) else None
  }

  /** Entry `i` of the table named by `n`, zero if there is no such table. */
  function Slot(mem: Mem, n: Node, i: nat): Entry
    decreases n, 1
  {
    match Table(mem, n)
    case None => ZERO
    case Some(f) => Word(mem, f, i)
  }

  /** The two memories agree on every entry of every table except entry `i` of `n`, which becomes `e`. */
  ghost predicate OneSlot(s: Space, mem: Mem, n: Node, i: nat, e: Entry) {
    forall m, j: nat :: s.InTree(m) ==> Slot(mem, m, j) == if m == n && j == i then e else Slot(s.mem, m, j)
  }

  /** A frame that is no table of any address space may change freely. */
  lemma {:induction false} ForeignFrame(s: Space, f: Frame, t: seq<Entry>, n: Node)
    requires s.WF() && s.InTree(n)
    requires forall m :: s.InTree(m) ==> Table(s.mem, m) != Some(f)
    ensures Table(s.mem[f := t], n) == Table(s.mem, n)
    ensures forall i :: Slot(s.mem[f := t], n, i) == Slot(s.mem, n, i)
  {
    if n.Sub? {
      ForeignFrame(s, f, t, n.parent);
    }
  }

  /** Does `n` lie strictly below `m`? */
  predicate Below(n: Node, m: Node) {
    n.Sub? && (n.parent == m || Below(n.parent, m))
  }

  /** Writing slot `i` of `n` leaves every table alone that is not below that slot. */
  lemma {:induction false} StoreElsewhere(s: Space, n: Node, i: nat, e: Entry, m: Node)
    requires s.WF() && s.HasSlot(n, i) && s.InTree(m) && Table(s.mem, n).Some?
    requires m != Sub(n, i) && !Below(m, Sub(n, i))
    ensures var mem := SetWord(s.mem, Table(s.mem, n).value, i, e);
            && Table(mem, m) == Table(s.mem, m)
            && forall j :: Slot(mem, m, j) == if m == n && j == i then e else Slot(s.mem, m, j)
  {
    if m.Sub? {
      StoreElsewhere(s, n, i, e, m.parent);
    }
  }
}
