/** Which bits of the entries a mapping sets (kernel/mm/vmm.c, `__vmm_attr_to_flags`; kernel/inc/mm/paging.h),
    and what the processor then allows. */
module MapFlags {
  import opened PageBitmap
  import opened PageTables
  import opened PageSteps
  import opened PageMap
  import opened PageRefinement
  import opened PageRanges

  type word = bv64

  // ---- entries as words

  const P: word := 0x1
  const RW: word := 0x2
  const US: word := 0x4
  const PWT: word := 0x8
  const PCD: word := 0x10
  const ACCESSED: word := 0x20
  const DIRTY: word := 0x40
  const PS: word := 0x80
  const GLOBAL: word := 0x100
  const PMM: word := 0x200
  const XD: word := 0x8000_0000_0000_0000

  /** The bit of a flag in an entry. */
  function Bit(f: Flag): word {
    match f
    case Present => P
    case Writable => RW
    case User => US
    case WriteThrough => PWT
    case NoCache => PCD
    case Accessed => ACCESSED
    case Dirty => DIRTY
    case Huge => PS
    case Global => GLOBAL
    case FromPmm => PMM
    case NoExec => XD
  }

  function BitIf(b: bool, w: word): word { if b then w else 0 }

  /** The word in which the bits that are asked for are set. */
  function Pack(p: bool, rw: bool, us: bool, pwt: bool, pcd: bool, a: bool, d: bool, ps: bool, g: bool, pmm: bool,
      xd: bool): word
  {
    BitIf(p, P) | BitIf(rw, RW) | BitIf(us, US) | BitIf(pwt, PWT) | BitIf(pcd, PCD) | BitIf(a, ACCESSED)
    | BitIf(d, DIRTY) | BitIf(ps, PS) | BitIf(g, GLOBAL) | BitIf(pmm, PMM) | BitIf(xd, XD)
  }

  /** The flags of an entry as a word. */
  function FlagsWord(s: set<Flag>): word {
    Pack(Present in s, Writable in s, User in s, WriteThrough in s, NoCache in s, Accessed in s, Dirty in s, Huge in s,
         Global in s, FromPmm in s, NoExec in s)
  }

  /** A bit is set exactly if its flag is there. */
  predicate Set(w: word, f: Flag) { Has(w, Bit(f)) }

  predicate Has(w: word, b: word) { w & b != 0 }

  lemma PackLow(p: bool, rw: bool, us: bool, pwt: bool, pcd: bool, a: bool, d: bool, ps: bool, g: bool, pmm: bool,
      xd: bool)
    ensures var w := Pack(p, rw, us, pwt, pcd, a, d, ps, g, pmm, xd);
            && Has(w, P) == p && Has(w, RW) == rw && Has(w, US) == us && Has(w, PWT) == pwt
            && Has(w, PCD) == pcd && Has(w, ACCESSED) == a
  {
  }

  lemma PackHigh(p: bool, rw: bool, us: bool, pwt: bool, pcd: bool, a: bool, d: bool, ps: bool, g: bool, pmm: bool,
      xd: bool)
    ensures var w := Pack(p, rw, us, pwt, pcd, a, d, ps, g, pmm, xd);
            && Has(w, DIRTY) == d && Has(w, PS) == ps && Has(w, GLOBAL) == g && Has(w, PMM) == pmm
            && Has(w, XD) == xd
  {
  }

  lemma BitSet(s: set<Flag>)
    ensures forall f :: Set(FlagsWord(s), f) <==> f in s
  {
    hide FlagsWord;
    LowBits(s);
    HighBits(s);
    forall f ensures Set(FlagsWord(s), f) <==> f in s {
      hide Set;
      match f
      case Present =>
      case Writable =>
      case User =>
      case WriteThrough =>
      case NoCache =>
      case Accessed =>
      case Dirty =>
      case Huge =>
      case Global =>
      case FromPmm =>
      case NoExec =>
    }
  }

  lemma LowBits(s: set<Flag>)
    ensures var w := FlagsWord(s);
            && Set(w, Present) == (Present in s) && Set(w, Writable) == (Writable in s) && Set(w, User) == (User in s)
            && Set(w, WriteThrough) == (WriteThrough in s) && Set(w, NoCache) == (NoCache in s)
            && Set(w, Accessed) == (Accessed in s)
  {
    hide Pack, Has;
    PackLow(Present in s, Writable in s, User in s, WriteThrough in s, NoCache in s, Accessed in s, Dirty in s,
      Huge in s, Global in s, FromPmm in s, NoExec in s);
  }

  lemma HighBits(s: set<Flag>)
    ensures var w := FlagsWord(s);
            && Set(w, Dirty) == (Dirty in s) && Set(w, Huge) == (Huge in s) && Set(w, Global) == (Global in s)
            && Set(w, FromPmm) == (FromPmm in s) && Set(w, NoExec) == (NoExec in s)
  {
    hide Pack, Has;
    PackHigh(Present in s, Writable in s, User in s, WriteThrough in s, NoCache in s, Accessed in s, Dirty in s,
      Huge in s, Global in s, FromPmm in s, NoExec in s);
  }

  // ---- attributes as words

  const NO_EXEC: bv32 := 0x1
  const NO_CACHE: bv32 := 0x2
  const RDONLY: bv32 := 0x4
  const USER: bv32 := 0x8
  const SAVE: bv32 := 0x10
  const REUSE: bv32 := 0x20

  /** The attributes as the kernel passes them. */
  function AttrWord(a: Attr): bv32 {
    (if a.noExec then NO_EXEC else 0) | (if a.noCache then NO_CACHE else 0) | (if a.readOnly then RDONLY else 0)
    | (if a.user then USER else 0) | (if a.save then SAVE else 0) | (if a.reuse then REUSE else 0)
  }

  /** `__vmm_attr_to_flags` */
  function AttrToFlags(attr: bv32, table: bool): word {
    var flags: word := if attr & USER != 0 then P | RW | US else P | RW;
    if table then flags
    else LeafBits(flags, attr & SAVE == 0, attr & NO_EXEC != 0, attr & NO_CACHE != 0, attr & RDONLY != 0)
  }

  /** The bits that only the entry of a page gets, one after the other. */
  function LeafBits(flags: word, owned: bool, noExec: bool, noCache: bool, readOnly: bool): word {
    var f1 := if owned then flags | PMM else flags;
    var f2 := if noExec then f1 | XD else f1;
    var f3 := if noCache then f2 | PCD else f2;
    if readOnly then f3 & !RW else f3
  }

  lemma AttrBits(a: Attr)
    ensures (AttrWord(a) & NO_EXEC != 0) == a.noExec && (AttrWord(a) & NO_CACHE != 0) == a.noCache
    ensures (AttrWord(a) & RDONLY != 0) == a.readOnly && (AttrWord(a) & USER != 0) == a.user
    ensures (AttrWord(a) & SAVE != 0) == a.save && (AttrWord(a) & REUSE != 0) == a.reuse
  {
  }

  /** Which flags an attribute sets in the entry of a page. */
  lemma LeafHas(a: Attr)
    ensures var s := LeafFlags(a);
            && Present in s && (Writable in s <==> !a.readOnly) && (User in s <==> a.user)
            && (FromPmm in s <==> !a.save)
            && (NoExec in s <==> a.noExec) && (NoCache in s <==> a.noCache)
            && WriteThrough !in s && Accessed !in s && Dirty !in s && Huge !in s && Global !in s
  {
  }

  lemma TableHas(a: Attr)
    ensures var s := TableFlags(a);
            && Present in s && Writable in s && (User in s <==> a.user)
            && FromPmm !in s && NoExec !in s && NoCache !in s
            && WriteThrough !in s && Accessed !in s && Dirty !in s && Huge !in s && Global !in s
  {
  }

  lemma LeafPacked(user: bool, owned: bool, noExec: bool, noCache: bool, readOnly: bool)
    ensures LeafBits(if user then P | RW | US else P | RW, owned, noExec, noCache, readOnly)
         == Pack(true, !readOnly, user, false, noCache, false, false, false, false, owned, noExec)
  {
  }

  lemma TablePacked(user: bool)
    ensures (if user then P | RW | US else P | RW)
         == Pack(true, true, user, false, false, false, false, false, false, false, false)
  {
  }

  /** The flags of the model are, bit for bit, the words of the kernel. */
  lemma FlagsExact(a: Attr)
    ensures FlagsWord(LeafFlags(a)) == AttrToFlags(AttrWord(a), false)
    ensures FlagsWord(TableFlags(a)) == AttrToFlags(AttrWord(a), true)
  {
    hide Pack, LeafBits, LeafFlags, TableFlags, AttrWord;
    AttrBits(a);
    LeafHas(a);
    TableHas(a);
    LeafPacked(a.user, !a.save, a.noExec, a.noCache, a.readOnly);
    TablePacked(a.user);
  }

  // ---- what a mapping leaves in the tables

  /** The three entries on the way to page `u` have these flags. */
  ghost predicate PathHas(mem: Mem, r: Frame, u: nat, flags: set<Flag>) {
    && flags <= Slot(mem, Top(r), I4(u)).flags && flags <= Slot(mem, N1(r, u), I3(u)).flags
    && flags <= Slot(mem, N2(r, u), I2(u)).flags
  }

  /** Entries that lead to tables keep their flags. */
  ghost predicate FlagsGrow(s: Space, t: Space) {
    forall n, i: nat :: s.HasSlot(n, i) && n.Root() == s.cr3 && n.Depth() < 3 ==>
      Slot(s.mem, n, i).flags <= Slot(t.mem, n, i).flags
  }

  lemma EnsuredFlags(s: Space, n: Node, i: nat, flags: set<Flag>)
    requires s.WF() && s.HasSlot(n, i) && n.Depth() < 3 && Table(s.mem, n).Some?
    requires Huge !in Slot(s.mem, n, i).flags && IsTable(Entry(0, flags)) && n.Root() == s.cr3
    requires EnsureTable(s, n, i, flags).Some?
    ensures var t := EnsureTable(s, n, i, flags).value; FlagsGrow(s, t) && flags <= Slot(t.mem, n, i).flags
  {
    hide EnsureTable, SameMap, OthersStay, Undisturbed, TablesStay, PageTables.Space.WF, Slot;
    EnsuringTable(s, n, i, flags);
    var t := EnsureTable(s, n, i, flags).value;
    forall m, j: nat | s.HasSlot(m, j) && m.Root() == s.cr3 && m.Depth() < 3
      ensures Slot(s.mem, m, j).flags <= Slot(t.mem, m, j).flags
    {
      assert s.InTree(m);
      assert Slot(s.mem, n, i) == ZERO ==> Slot(s.mem, n, i).flags == {};
    }
  }

  lemma GrowFlagsTrans(s: Space, t: Space, u: Space)
    requires t.cr3 == s.cr3 && SameRoots(s, t) && FlagsGrow(s, t) && FlagsGrow(t, u)
    ensures FlagsGrow(s, u)
  {
    hide Slot;
    SameTree(s, t);
  }

  lemma PathKept(s: Space, t: Space, u: nat, flags: set<Flag>)
    requires IsPage(u) && FlagsGrow(s, t) && PathHas(s.mem, s.cr3, u, flags)
    ensures PathHas(t.mem, s.cr3, u, flags)
  {
    hide Slot, I4, I3, I2, I1;
    PathInTree(s, u);
  }

  lemma SameMemFlags(s: Space, u: Space, t: Space)
    requires t.mem == u.mem && FlagsGrow(s, u)
    ensures FlagsGrow(s, t)
  {
  }

  /** The entry of a page leads to no table. */
  lemma LeafFlagsKept(s: Space, v: nat, e: Entry)
    requires s.WF() && IsPage(v) && EntryOk(e, 3) && Table(s.mem, N3(s.cr3, v)).Some?
    ensures FlagsGrow(s, Write(s, N3(s.cr3, v), I1(v), e))
  {
    hide Slot, I4, I3, I2, I1, PageTables.Space.WF, Undisturbed, Write;
    PathInTree(s, v);
    SetLeaf(s, N3(s.cr3, v), I1(v), e);
  }

  /** Each entry on the way had the flags once it was made, and keeps them. */
  lemma OnTheWay(s1: Space, s2: Space, s3: Space, t: Space, v: nat, flags: set<Flag>)
    requires IsPage(v) && s3.cr3 == s2.cr3 == s1.cr3
    requires flags <= Slot(s1.mem, Top(s1.cr3), I4(v)).flags && FlagsGrow(s1, t)
    requires flags <= Slot(s2.mem, N1(s1.cr3, v), I3(v)).flags && FlagsGrow(s2, t)
    requires flags <= Slot(s3.mem, N2(s1.cr3, v), I2(v)).flags && FlagsGrow(s3, t)
    ensures PathHas(t.mem, s1.cr3, v, flags)
  {
    hide Slot, I4, I3, I2, I1;
    PathInTree(s1, v);
    PathInTree(s2, v);
    PathInTree(s3, v);
  }

  lemma OneMapped(s: Space, v: nat, f: Frame, attr: Attr)
    requires s.WF() && IsPage(v) && !InHuge(s.mem, s.cr3, v) && MapOne(s, v, f, attr).Some?
    ensures var t := MapOne(s, v, f, attr).value; FlagsGrow(s, t) && PathHas(t.mem, s.cr3, v, TableFlags(attr))
  {
    hide I4, I3, I2, I1, EnsureTable, OthersStay, TopGuarded, Undisturbed, EmptyOnlyOn, TablesStay, FlagsGrow,
      PageTables.Space.WF, Slot;
    var flags, r := TableFlags(attr), s.cr3;
    WFPm(s);
    PathInTree(s, v);
    UpperEntries(s, v);
    assert s.InTree(Top(r)) && Table(s.mem, Top(r)).Some?;
    EnsuredFlags(s, Top(r), I4(v), flags);
    EnsuringTable(s, Top(r), I4(v), flags);
    EnsuringTop(s, v, flags);
    var s1 := EnsureTop(s, I4(v), flags).value;
    SameMemFlags(s, EnsureTable(s, Top(r), I4(v), flags).value, s1);
    PathInTree(s1, v);
    UpperEntries(s1, v);
    EnsuredFlags(s1, N1(r, v), I3(v), flags);
    EnsuringTable(s1, N1(r, v), I3(v), flags);
    var s2 := EnsureTable(s1, N1(r, v), I3(v), flags).value;
    PathInTree(s2, v);
    EnsuredFlags(s2, N2(r, v), I2(v), flags);
    EnsuringTable(s2, N2(r, v), I2(v), flags);
    EnsuringPath(s, v, flags);
    var s3 := EnsureTable(s2, N2(r, v), I2(v), flags).value;
    PathInTree(s3, v);
    LeafFlagsKept(s3, v, Entry(f, LeafFlags(attr)));
    FollowsRoots(s, s1);
    FollowsRoots(s, s2);
    FollowsRoots(s, s3);
    var t := MapOne(s, v, f, attr).value;
    GrowFlagsTrans(s1, s2, s3);
    GrowFlagsTrans(s1, s3, t);
    GrowFlagsTrans(s2, s3, t);
    GrowFlagsTrans(s, s1, t);
    OnTheWay(s1, s2, s3, t, v, flags);
  }

  /** Mapping a range: the entries on the way to each of its pages have the flags of the attributes. */
  lemma {:induction false} PagesMapped(s: Space, v: nat, f: Frame, num: nat, attr: Attr)
    requires s.WF() && SmallPages(s, v, num) && MapPages(s, v, f, num, attr).Some?
    ensures var t := MapPages(s, v, f, num, attr).value;
            && FlagsGrow(s, t)
            && forall u: nat :: v <= u < v + num ==> PathHas(t.mem, s.cr3, u, TableFlags(attr))
    decreases num
  {
    hide MapOne, Undisturbed, OthersStay, TopGuarded, TablesStay, PathHas, FlagsGrow, PageTables.Space.WF, Lookup,
      InHuge, IsPage;
    WFPm(s);
    if num == 0 {
      NoFlagsLost(s);
    } else {
      var t := MapOne(s, v, f, attr).value;
      assert IsPage(v) && !InHuge(s.mem, s.cr3, v);
      OneMapped(s, v, f, attr);
      MappingOne(s, v, f, attr);
      SmallPagesNext(s, t, v, num, Entry(f, LeafFlags(attr)));
      PagesMapped(t, v + 1, f + 1, num - 1, attr);
      var w := MapPages(s, v, f, num, attr).value;
      FollowsRoots(s, t);
      GrowFlagsTrans(s, t, w);
      PathKept(t, w, v, TableFlags(attr));
    }
  }

  lemma NoFlagsLost(s: Space)
    ensures FlagsGrow(s, s)
  {
  }

  // ---- what the processor allows

  /** The entry of page `u` has the flag, and so have the three on the way to it: the processor lets user
      code at a page, or anybody write to it, only then. */
  ghost predicate Allows(s: Space, u: nat, f: Flag) {
    f in Lookup(s.mem, s.cr3, u).flags && PathHas(s.mem, s.cr3, u, {f})
  }

  /** After a mapping, for every page of the range: user code can reach it exactly if that was asked for, it
      can be written exactly if it was not to be read-only, and the bits of its entry for execution,
      caching and ownership are as asked; its whole flag word is what the kernel computes. */
  lemma MappedRights(s: Space, v: nat, f: Frame, num: nat, attr: Attr, u: nat)
    requires s.WF() && SmallPages(s, v, num) && MapPages(s, v, f, num, attr).Some? && v <= u < v + num
    ensures var t := MapPages(s, v, f, num, attr).value; var e := Lookup(t.mem, t.cr3, u);
            && e.frame == f + (u - v) && FlagsWord(e.flags) == AttrToFlags(AttrWord(attr), false)
            && (Allows(t, u, User) <==> attr.user) && (Allows(t, u, Writable) <==> !attr.readOnly)
            && (Set(FlagsWord(e.flags), NoExec) <==> attr.noExec)
            && (Set(FlagsWord(e.flags), NoCache) <==> attr.noCache)
            && (Set(FlagsWord(e.flags), FromPmm) <==> !attr.save) && Set(FlagsWord(e.flags), Present)
  {
    hide MapPages, Undisturbed, OthersStay, TopGuarded, TablesStay, Lookup, InHuge, IsPage, LeafFlags, TableFlags,
      FlagsWord, AttrToFlags, PathHas, Set;
    MappingPages(s, v, f, num, attr);
    PagesMapped(s, v, f, num, attr);
    var t := MapPages(s, v, f, num, attr).value;
    assert IsPage(u);
    LeafHas(attr);
    TableHas(attr);
    FlagsExact(attr);
    BitSet(LeafFlags(attr));
    PathPart(t.mem, s.cr3, u, TableFlags(attr), Writable);
    if attr.user { PathPart(t.mem, s.cr3, u, TableFlags(attr), User); }
  }

  lemma PathPart(mem: Mem, r: Frame, u: nat, flags: set<Flag>, f: Flag)
    requires PathHas(mem, r, u, flags) && f in flags
    ensures PathHas(mem, r, u, {f})
  {
    hide Slot, I4, I3, I2;
  }
}
