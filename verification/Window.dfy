/** The processor's page walk (section 4.5 of the Intel SDM, Volume 3A) and the recursive window
    through which the kernel reaches its own tables (kernel/mm/vmm.c, the address macros). */
module Window {
  import opened Lists
  import opened PageBitmap
  import opened PageTables
  import opened PageMap
  import opened PageRefinement
  import opened PageRanges

  const SIGN_EXTENSION := 0xffff_0000_0000_0000

  /** `vmm_indexes_to_addr`: the canonical address with these indices. */
  function IndexesToAddr(i4: nat, i3: nat, i2: nat, i1: nat): nat {
    PageAt(i4, i3, i2, i1) * PAGE_SIZE + if i4 >= KERNEL_SLOT then SIGN_EXTENSION else 0
  }

  /** The page number that the 36 index bits of an address form. */
  function PageOf(va: nat): nat { va / PAGE_SIZE % PAGE_LIMIT }

  /** The upper 16 bits repeat bit 47. */
  predicate Canonical(va: nat) {
    va < 0x8000_0000_0000 || 0xffff_8000_0000_0000 <= va < 0x1_0000_0000_0000_0000
  }

  /** The address that the indices form has those indices, at any offset within its page. */
  lemma IndexesOfAddr(i4: nat, i3: nat, i2: nat, i1: nat, o: nat)
    requires i4 < 512 && i3 < 512 && i2 < 512 && i1 < 512 && o < PAGE_SIZE
    ensures var va := IndexesToAddr(i4, i3, i2, i1);
            && Canonical(va) && va % PAGE_SIZE == 0 && (va + o) % PAGE_SIZE == o
            && PageOf(va + o) == PageAt(i4, i3, i2, i1)
            && I4(PageOf(va + o)) == i4 && I3(PageOf(va + o)) == i3
            && I2(PageOf(va + o)) == i2 && I1(PageOf(va + o)) == i1
  {
    PageAtIndices(i4, i3, i2, i1);
    var p := PageAt(i4, i3, i2, i1);
    hide I4, I3, I2, I1;
    AddrOfPage(p, o, i4 >= KERNEL_SLOT);
    assert i4 >= KERNEL_SLOT <==> p >= 0x8_0000_0000;
  }

  lemma AddrOfPage(p: nat, o: nat, high: bool)
    requires p < PAGE_LIMIT && o < PAGE_SIZE
    ensures var va := p * PAGE_SIZE + if high then SIGN_EXTENSION else 0;
            va % PAGE_SIZE == 0 && (va + o) % PAGE_SIZE == o && PageOf(va + o) == p
  {
    var q := p + if high then 0xf_fff0_0000_0000 else 0;
    var va := p * PAGE_SIZE + if high then SIGN_EXTENSION else 0;
    assert va == q * PAGE_SIZE;
    assert (va + o) / PAGE_SIZE == q;
  }

  /** The indices of a canonical page address form that address again. */
  lemma AddrOfIndexes(va: nat)
    requires Canonical(va) && va % PAGE_SIZE == 0
    ensures var v := PageOf(va); IndexesToAddr(I4(v), I3(v), I2(v), I1(v)) == va
  {
    var v := PageOf(va);
    FromIndices(v);
    assert I4(v) == v / 0x800_0000 by { assert v < PAGE_LIMIT; }
    assert I4(v) >= KERNEL_SLOT <==> v >= 0x8_0000_0000;
    hide I4, I3, I2, I1;
    var q := va / PAGE_SIZE;
    assert va == q * PAGE_SIZE;
    if va < 0x8000_0000_0000 {
      assert v == q;
    } else {
      assert v == q - 0xf_fff0_0000_0000;
    }
  }

  /** The physical address that the processor translates `va` to; None is a page fault. */
  function HwWalk(mem: Mem, cr3: Frame, va: nat): Option<nat> {
    var v := PageOf(va);
    var e4 := Word(mem, cr3, I4(v));
    if Present !in e4.flags then None else
    var e3 := Word(mem, e4.frame, I3(v));
    if Present !in e3.flags then None else
    if Huge in e3.flags then Some(e3.frame * PAGE_SIZE + va % 0x4000_0000) else
    var e2 := Word(mem, e3.frame, I2(v));
    if Present !in e2.flags then None else
    if Huge in e2.flags then Some(e2.frame * PAGE_SIZE + va % 0x20_0000) else
    var e1 := Word(mem, e2.frame, I1(v));
    if Present !in e1.flags then None else Some(e1.frame * PAGE_SIZE + va % PAGE_SIZE)
  }

  /** The walk finds what the kernel's own lookup finds. */
  lemma WalkIsResolve(s: Space, va: nat)
    requires s.WF() && I4(PageOf(va)) != WINDOW
    ensures HwWalk(s.mem, s.cr3, va) ==
              if Lookup(s.mem, s.cr3, PageOf(va)) == ZERO then None else Some(Resolve(s, va))
  {
    var v := PageOf(va);
    PathInTree(s, v);
    PathWords(s, v);
    hide I4, I3, I2, I1;
    assert EntryOk(Slot(s.mem, Top(s.cr3), I4(v)), 0) && EntryOk(Slot(s.mem, N1(s.cr3, v), I3(v)), 1);
    assert EntryOk(Slot(s.mem, N2(s.cr3, v), I2(v)), 2) && EntryOk(Slot(s.mem, N3(s.cr3, v), I1(v)), 3);
  }

  /** Each table on the path of a page is where the entry above says. */
  lemma PathWords(s: Space, v: nat)
    ensures var r := s.cr3;
            var e4 := Word(s.mem, r, I4(v));
            && Slot(s.mem, Top(r), I4(v)) == e4
            && Table(s.mem, N1(r, v)) == (if IsTable(e4) then Some(e4.frame) else None)
            && var e3 := Slot(s.mem, N1(r, v), I3(v));
               && (IsTable(e4) ==> e3 == Word(s.mem, e4.frame, I3(v)))
               && (!IsTable(e4) ==> e3 == ZERO)
               && Table(s.mem, N2(r, v)) == (if IsTable(e3) then Some(e3.frame) else None)
               && var e2 := Slot(s.mem, N2(r, v), I2(v));
                  && (IsTable(e3) ==> e2 == Word(s.mem, e3.frame, I2(v)))
                  && (!IsTable(e3) ==> e2 == ZERO)
                  && Table(s.mem, N3(r, v)) == (if IsTable(e2) then Some(e2.frame) else None)
                  && var e1 := Slot(s.mem, N3(r, v), I1(v));
                     && (IsTable(e2) ==> e1 == Word(s.mem, e2.frame, I1(v)))
                     && (!IsTable(e2) ==> e1 == ZERO)
  {
    hide I4, I3, I2, I1;
  }

  // ---- the window: addresses of the tables on the path of page `v`

  function Pml4Addr(): nat { IndexesToAddr(WINDOW, WINDOW, WINDOW, WINDOW) }
  function PdptAddr(v: nat): nat { IndexesToAddr(WINDOW, WINDOW, WINDOW, I4(v)) }
  function PdAddr(v: nat): nat { IndexesToAddr(WINDOW, WINDOW, I4(v), I3(v)) }
  function PtAddr(v: nat): nat { IndexesToAddr(WINDOW, I4(v), I3(v), I2(v)) }

  const PTE_SIZE := 8

  /** Slot 510 of the PML4 holds its own frame. */
  predicate HasWindow(mem: Mem, r: Frame) {
    IsTable(Word(mem, r, WINDOW)) && Word(mem, r, WINDOW).frame == r
  }

  /** In a PML4 whose window slot points at itself, the window addresses reach exactly the PML4 and
      the tables on the path of the page, entry by entry. */
  lemma WindowReaches(s: Space, v: nat, i: nat)
    requires HasWindow(s.mem, s.cr3) && IsPage(v) && i < PTE_COUNT
    ensures HwWalk(s.mem, s.cr3, Pml4Addr() + i * PTE_SIZE) == Some(s.cr3 * PAGE_SIZE + i * PTE_SIZE)
    ensures match Table(s.mem, N1(s.cr3, v))
            case None => true
            case Some(f) => HwWalk(s.mem, s.cr3, PdptAddr(v) + i * PTE_SIZE) == Some(f * PAGE_SIZE + i * PTE_SIZE)
    ensures match Table(s.mem, N2(s.cr3, v))
            case None => true
            case Some(f) => HwWalk(s.mem, s.cr3, PdAddr(v) + i * PTE_SIZE) == Some(f * PAGE_SIZE + i * PTE_SIZE)
    ensures match Table(s.mem, N3(s.cr3, v))
            case None => true
            case Some(f) => HwWalk(s.mem, s.cr3, PtAddr(v) + i * PTE_SIZE) == Some(f * PAGE_SIZE + i * PTE_SIZE)
  {
    var o := i * PTE_SIZE;
    assert I4(v) < 512 && I3(v) < 512 && I2(v) < 512;
    var w := WINDOW;
    IndexesOfAddr(w, w, w, w, o);
    IndexesOfAddr(w, w, w, I4(v), o);
    IndexesOfAddr(w, w, I4(v), I3(v), o);
    IndexesOfAddr(w, I4(v), I3(v), I2(v), o);
    PathWords(s, v);
    hide I4, I3, I2, I1, IndexesToAddr, PageOf;
  }

  /** Where a table on the path is missing, its window address faults; below a 2 MiB entry, the address of
      the page table that is not there reaches the beginning of the large page. */
  lemma WindowFaults(s: Space, v: nat, i: nat)
    requires s.WF() && HasWindow(s.mem, s.cr3) && IsPage(v) && i < PTE_COUNT
    ensures Table(s.mem, N1(s.cr3, v)) == None ==> HwWalk(s.mem, s.cr3, PdptAddr(v) + i * PTE_SIZE) == None
    ensures Table(s.mem, N2(s.cr3, v)) == None ==> HwWalk(s.mem, s.cr3, PdAddr(v) + i * PTE_SIZE) == None
    ensures Table(s.mem, N3(s.cr3, v)) == None ==>
              HwWalk(s.mem, s.cr3, PtAddr(v) + i * PTE_SIZE) ==
                if InHuge(s.mem, s.cr3, v) then
                  Some(Slot(s.mem, N2(s.cr3, v), I2(v)).frame * PAGE_SIZE + i * PTE_SIZE)
                else None
  {
    var o := i * PTE_SIZE;
    assert I4(v) < 512 && I3(v) < 512 && I2(v) < 512;
    var w := WINDOW;
    IndexesOfAddr(w, w, w, I4(v), o);
    IndexesOfAddr(w, w, I4(v), I3(v), o);
    IndexesOfAddr(w, I4(v), I3(v), I2(v), o);
    PathWords(s, v);
    EntriesOnPath(s, v);
    hide I4, I3, I2, I1, IndexesToAddr, PageOf;
  }

  lemma EntriesOnPath(s: Space, v: nat)
    requires s.WF() && IsPage(v)
    ensures EntryOk(Slot(s.mem, Top(s.cr3), I4(v)), 0) && EntryOk(Slot(s.mem, N1(s.cr3, v), I3(v)), 1)
    ensures EntryOk(Slot(s.mem, N2(s.cr3, v), I2(v)), 2)
  {
    PathInTree(s, v);
  }
}
