/** What holds of physical allocation over whole runs, from the bump allocator through the switch to
    the bitmap and on. */
module PmmRuns {
  import opened Lists
  import opened PageBitmap
  import opened Pmm

  /** A block of `num` pages that was handed out and not given back. */
  datatype Block = Block(frame: Frame, num: nat) {
    predicate Has(g: Frame) { frame <= g < frame + num }
  }

  /** `bump` is true until the bitmap exists. */
  datatype State = State(bump: bool, pm: Bitmap, live: seq<Block>)

  /** The bits that may be handed out are those of free memory. */
  ghost predicate FollowsLayout(b: Bitmap, l: Layout) {
    b.Valid() && forall g: nat :: b.Covers(g) ==> b.usable[g - b.base] == IsFreeMemory(l, g * PAGE_SIZE)
  }

  /** Live blocks do not overlap, are marked as used, and consist of free memory only: available
      pages outside the kernel, the boot information and the known ranges. */
  ghost predicate Safe(s: State, l: Layout) {
    && FollowsLayout(s.pm, l)
    && (forall i, g: nat :: 0 <= i < |s.live| && s.live[i].Has(g) ==> s.pm.IsUsed(g) && IsFreeMemory(l, g * PAGE_SIZE))
    && (forall i, j, g: nat :: 0 <= i < j < |s.live| && s.live[i].Has(g) ==> !s.live[j].Has(g))
  }

  /** `GiveBack` frees pages of a live block, all of them or some: the kernel unmaps page by page. */
  datatype Op =
    | Take(num: nat, align: nat)
    | GiveBack(block: nat, frame: Frame, num: nat)
    | Switch(bitmap: Bitmap)

  ghost predicate Allowed(s: State, l: Layout, op: Op) {
    match op
    case Take(_, _) => true
    case GiveBack(i, f, num) =>
      !s.bump && i < |s.live| && s.live[i].frame <= f && f + num <= s.live[i].frame + s.live[i].num
    case Switch(c) => s.bump && s.pm.Valid() && FollowsLayout(c, l) && Switched(s.pm, c)
  }

  /** The block without pages `[f, f + num)`: what lies before them, and what lies after. */
  function Before(b: Block, f: Frame): Block
    requires b.frame <= f
  {
    Block(b.frame, f - b.frame)
  }

  function After(b: Block, f: Frame, num: nat): Block
    requires f + num <= b.frame + b.num
  {
    Block(f + num, b.frame + b.num - (f + num))
  }

  ghost function Apply(s: State, l: Layout, op: Op): State
    requires s.pm.Valid() && Allowed(s, l, op)
  {
    match op
    case Take(num, align) =>
      var (pm, got) := if s.bump then Bump(s.pm, num, align) else Alloc(s.pm, num, align);
      if got.Some? then State(s.bump, pm, s.live + [Block(got.value, num)]) else s
    case GiveBack(i, f, num) =>
      State(false, s.pm.Mark(f, num, false), s.live[i := Before(s.live[i], f)] + [After(s.live[i], f, num)])
    case Switch(c) => State(false, c, s.live)
  }

  /** Handing out a free run keeps the blocks apart. */
  lemma TakeBlock(s: State, l: Layout, pm: Bitmap, f: Frame, num: nat)
    requires Safe(s, l) && s.pm.RunFree(f, num) && pm.Valid() && pm.base == s.pm.base && pm.usable == s.pm.usable
    requires forall g: nat :: s.pm.IsUsed(g) || f <= g < f + num ==> pm.IsUsed(g)
    ensures Safe(State(s.bump, pm, s.live + [Block(f, num)]), l)
  {
    hide IsFreeMemory;
    var t := State(s.bump, pm, s.live + [Block(f, num)]);
    forall g: nat | f <= g < f + num ensures !s.pm.IsUsed(g) && IsFreeMemory(l, g * PAGE_SIZE) {
      assert s.pm.IsFree(g);
    }
    forall i, g: nat | 0 <= i < |t.live| && t.live[i].Has(g) ensures pm.IsUsed(g) && IsFreeMemory(l, g * PAGE_SIZE) {
      assert i < |s.live| ==> t.live[i] == s.live[i];
    }
    forall i, j, g: nat | 0 <= i < j < |t.live| && t.live[i].Has(g) ensures !t.live[j].Has(g) {
      assert t.live[i] == s.live[i] && s.live[i].Has(g) && s.pm.IsUsed(g);
      assert j < |s.live| ==> t.live[j] == s.live[j];
    }
  }

  lemma TakeSafe(s: State, l: Layout, num: nat, align: nat)
    requires Safe(s, l)
    ensures Safe(Apply(s, l, Take(num, align)), l)
  {
    hide IsFreeMemory, Aligned, Safe, Bump, Alloc;
    assert s.pm.Valid() by { SafeValid(s, l); }
    var (pm, got) := if s.bump then Bump(s.pm, num, align) else Alloc(s.pm, num, align);
    if got.Some? {
      TakeBlock(s, l, pm, got.value, num);
    }
  }

  lemma SafeValid(s: State, l: Layout)
    requires Safe(s, l)
    ensures s.pm.Valid()
  {
  }

  lemma GiveBackSafe(s: State, l: Layout, i: nat, f: Frame, num: nat)
    requires Safe(s, l) && Allowed(s, l, GiveBack(i, f, num))
    ensures Safe(Apply(s, l, GiveBack(i, f, num)), l)
  {
    hide IsFreeMemory;
    var t := Apply(s, l, GiveBack(i, f, num));
    forall j, g: nat | 0 <= j < |t.live| && t.live[j].Has(g)
      ensures s.live[Origin(s, i, j)].Has(g) && !(f <= g < f + num)
    {
      PartOf(s, l, i, f, num, j, g);
    }
    forall j, k, g: nat | 0 <= j < k < |t.live| && t.live[j].Has(g) ensures !t.live[k].Has(g) {
      if k == |s.live| {
        assert j != i ==> !s.live[i].Has(g);
      }
    }
  }

  /** The block that block `j` of the new list comes from. */
  function Origin(s: State, i: nat, j: nat): nat { if j < |s.live| then j else i }

  lemma PartOf(s: State, l: Layout, i: nat, f: Frame, num: nat, j: nat, g: Frame)
    requires Safe(s, l) && Allowed(s, l, GiveBack(i, f, num)) && j <= |s.live|
    requires Apply(s, l, GiveBack(i, f, num)).live[j].Has(g)
    ensures s.live[Origin(s, i, j)].Has(g) && !(f <= g < f + num)
  {
    hide IsFreeMemory;
    assert s.live[i].frame <= f && f + num <= s.live[i].frame + s.live[i].num;
    assert j < |s.live| && j != i ==> !s.live[i].Has(g);
  }

  ghost predicate Reaches(s: State, l: Layout, ops: seq<Op>, t: State)
    decreases |ops|
  {
    if ops == [] then t == s
    else s.pm.Valid() && Allowed(s, l, ops[0]) && Reaches(Apply(s, l, ops[0]), l, ops[1..], t)
  }

  /** Over every run, live blocks never overlap and never contain reserved memory; in particular
      nothing that the bump allocator handed out is handed out by the bitmap while it is live. */
  lemma {:induction false} RunSafe(s: State, l: Layout, ops: seq<Op>, t: State)
    requires Safe(s, l) && Reaches(s, l, ops, t)
    ensures Safe(t, l)
    decreases |ops|
  {
    hide IsFreeMemory;
    if ops != [] {
      match ops[0] {
        case Take(num, align) => TakeSafe(s, l, num, align);
        case GiveBack(i, f, num) => GiveBackSafe(s, l, i, f, num);
        case Switch(c) =>
      }
      RunSafe(Apply(s, l, ops[0]), l, ops[1..], t);
    }
  }

  // ---- what safety means for bytes

  /** The byte belongs to the kernel, the boot information or a known device. */
  predicate Reserved(l: Layout, x: nat) {
    l.kernel.Contains(x) || l.bootInfo.Contains(x) || exists i :: 0 <= i < |l.known| && l.known[i].Contains(x)
  }

  predicate InEntry(e: MapEntry, x: nat) { e.available && e.addr <= x < e.addr + e.len }

  /** The entry is available and holds every byte of the page. */
  ghost predicate HoldsPage(e: MapEntry, g: Frame) {
    forall x: nat :: g * PAGE_SIZE <= x < (g + 1) * PAGE_SIZE ==> InEntry(e, x)
  }

  /** The kernel's test passes exactly for pages whose first byte is not reserved and all of whose bytes one
      available entry of the memory map holds. */
  lemma FreeMemoryExact(l: Layout, g: Frame)
    ensures IsFreeMemory(l, g * PAGE_SIZE) <==>
            !Reserved(l, g * PAGE_SIZE) && exists i :: 0 <= i < |l.entries| && HoldsPage(l.entries[i], g)
  {
    forall i | 0 <= i < |l.entries| ensures Available(l.entries[i], g * PAGE_SIZE) <==> HoldsPage(l.entries[i], g) {
      PageHeld(l.entries[i], g);
    }
  }

  lemma PageHeld(e: MapEntry, g: Frame)
    ensures Available(e, g * PAGE_SIZE) <==> HoldsPage(e, g)
  {
    var first, last := g * PAGE_SIZE, (g + 1) * PAGE_SIZE - 1;
    if HoldsPage(e, g) { assert InEntry(e, first) && InEntry(e, last); }
  }

  /** No byte of the page is reserved. */
  ghost predicate PageClean(l: Layout, g: Frame) {
    forall x: nat :: g * PAGE_SIZE <= x < (g + 1) * PAGE_SIZE ==> !Reserved(l, x)
  }

  /** The range starts strictly inside the page. */
  predicate StartsIn(r: Range, g: Frame) { g * PAGE_SIZE < r.start < r.end && r.start < (g + 1) * PAGE_SIZE }

  predicate Intruded(l: Layout, g: Frame) {
    StartsIn(l.kernel, g) || StartsIn(l.bootInfo, g) || exists i :: 0 <= i < |l.known| && StartsIn(l.known[i], g)
  }

  /** No byte of the page is in the range. */
  ghost predicate Misses(r: Range, g: Frame) {
    forall x: nat :: g * PAGE_SIZE <= x < (g + 1) * PAGE_SIZE ==> !r.Contains(x)
  }

  /** A range misses a page whose first byte it does not contain exactly if it does not start inside. */
  lemma RangeMisses(r: Range, g: Frame)
    requires !r.Contains(g * PAGE_SIZE)
    ensures Misses(r, g) <==> !StartsIn(r, g)
  {
    assert StartsIn(r, g) ==> r.Contains(r.start);
  }

  /** The kernel looks at the first byte of a page only: a page that passes is clean exactly if no
      reserved range starts strictly inside it. */
  lemma PageCleanExact(l: Layout, g: Frame)
    requires IsFreeMemory(l, g * PAGE_SIZE)
    ensures PageClean(l, g) <==> !Intruded(l, g)
  {
    hide StartsIn;
    RangeMisses(l.kernel, g);
    RangeMisses(l.bootInfo, g);
    forall i | 0 <= i < |l.known| ensures Misses(l.known[i], g) <==> !StartsIn(l.known[i], g) {
      RangeMisses(l.known[i], g);
    }
    if PageClean(l, g) {
      forall x: nat | g * PAGE_SIZE <= x < (g + 1) * PAGE_SIZE
        ensures !l.kernel.Contains(x) && !l.bootInfo.Contains(x)
      {
        assert !Reserved(l, x);
      }
      forall i | 0 <= i < |l.known| ensures Misses(l.known[i], g) {
        forall x: nat | g * PAGE_SIZE <= x < (g + 1) * PAGE_SIZE ensures !l.known[i].Contains(x) {
          assert !Reserved(l, x);
        }
      }
    }
  }

  /** No byte of a live page is reserved. */
  ghost predicate Clean(s: State, l: Layout) {
    forall i, g: nat :: 0 <= i < |s.live| && s.live[i].Has(g) ==> PageClean(l, g)
  }

  /** No reserved range starts strictly inside a page that can be handed out. */
  ghost predicate Unintruded(s: State, l: Layout)
    requires s.pm.Valid()
  {
    forall g: nat :: s.pm.IsFree(g) ==> !Intruded(l, g)
  }

  lemma TakeClean(s: State, l: Layout, num: nat, align: nat)
    requires Safe(s, l) && Clean(s, l) && Unintruded(s, l)
    ensures var t := Apply(s, l, Take(num, align)); t.pm.Valid() && Clean(t, l) && Unintruded(t, l)
  {
    hide IsFreeMemory, PageClean, Intruded, Aligned, Bump, Alloc;
    var t := Apply(s, l, Take(num, align));
    var (pm, got) := if s.bump then Bump(s.pm, num, align) else Alloc(s.pm, num, align);
    if got.Some? {
      forall i, g: nat | 0 <= i < |t.live| && t.live[i].Has(g) ensures PageClean(l, g) {
        if i < |s.live| {
          assert t.live[i] == s.live[i];
        } else {
          assert s.pm.IsFree(g) && IsFreeMemory(l, g * PAGE_SIZE);
          PageCleanExact(l, g);
        }
      }
      forall g: nat | t.pm.IsFree(g) ensures s.pm.IsFree(g) { assert !s.pm.IsUsed(g); }
    }
  }

  lemma GiveBackClean(s: State, l: Layout, i: nat, f: Frame, num: nat)
    requires Safe(s, l) && Clean(s, l) && Unintruded(s, l) && Allowed(s, l, GiveBack(i, f, num))
    ensures var t := Apply(s, l, GiveBack(i, f, num)); t.pm.Valid() && Clean(t, l) && Unintruded(t, l)
  {
    hide IsFreeMemory, PageClean, Intruded;
    var t := Apply(s, l, GiveBack(i, f, num));
    forall j, g: nat | 0 <= j < |t.live| && t.live[j].Has(g) ensures PageClean(l, g) {
      PartOf(s, l, i, f, num, j, g);
    }
    forall g: nat | t.pm.IsFree(g) ensures !Intruded(l, g) {
      if f <= g < f + num {
        assert s.live[i].Has(g);
        PageCleanExact(l, g);
      } else {
        assert !t.pm.IsUsed(g) && !s.pm.IsUsed(g) && s.pm.IsFree(g);
      }
    }
  }

  lemma {:induction false} RunClean(s: State, l: Layout, ops: seq<Op>, t: State)
    requires Safe(s, l) && Clean(s, l) && Unintruded(s, l) && Reaches(s, l, ops, t)
    ensures Clean(t, l)
    decreases |ops|
  {
    hide IsFreeMemory, PageClean, Intruded, Safe;
    if ops != [] {
      RunSafe(s, l, [ops[0]], Apply(s, l, ops[0]));
      match ops[0] {
        case Take(num, align) => TakeClean(s, l, num, align);
        case GiveBack(i, f, num) => GiveBackClean(s, l, i, f, num);
        case Switch(c) =>
      }
      RunClean(Apply(s, l, ops[0]), l, ops[1..], t);
    }
  }

  /** Any one free page can be asked for: with its own address as the alignment. */
  lemma TakeAt(s: State, l: Layout, g: Frame)
    requires Safe(s, l) && s.pm.IsFree(g)
    ensures var t := Apply(s, l, Take(1, g * PAGE_SIZE)); |t.live| == |s.live| + 1 && t.live[|s.live|] == Block(g, 1)
  {
    hide IsFreeMemory, Aligned, Safe, FirstFit;
    SafeValid(s, l);
    var align := g * PAGE_SIZE;
    assert Aligned(g, align) && !BadAlign(align) by { OwnAlignment(g); }
    assert s.pm.Fits(g, 1, align);
    forall h: nat | s.pm.base <= h < g ensures !s.pm.Fits(h, 1, align) { LowerUnaligned(h, g); }
    FirstFitUnique(s.pm, 1, align, FirstFit(s.pm, 1, align), Some(g));
  }

  lemma OwnAlignment(g: Frame)
    requires g > 0
    ensures Aligned(g, g * PAGE_SIZE) && !BadAlign(g * PAGE_SIZE)
  {
  }

  lemma LowerUnaligned(h: Frame, g: Frame)
    requires 0 < h < g
    ensures !Aligned(h, g * PAGE_SIZE)
  {
    assert 0 < h * PAGE_SIZE < g * PAGE_SIZE;
  }

  /** Whatever the run, it ends with no byte of a live page reserved. */
  ghost predicate AlwaysClean(s: State, l: Layout) {
    forall ops, t :: Reaches(s, l, ops, t) ==> Clean(t, l)
  }

  /** Over every run no byte of a live page is ever reserved, if and only if no reserved range starts
      strictly inside a page that is free at the start. */
  lemma {:induction false} RunCleanExact(s: State, l: Layout)
    requires Safe(s, l) && Clean(s, l)
    ensures AlwaysClean(s, l) <==> Unintruded(s, l)
  {
    hide IsFreeMemory, PageClean, Intruded, Reaches, Clean, Safe;
    SafeValid(s, l);
    if Unintruded(s, l) {
      forall ops, t | Reaches(s, l, ops, t) ensures Clean(t, l) { RunClean(s, l, ops, t); }
    } else {
      var g: nat :| s.pm.IsFree(g) && Intruded(l, g);
      var op := Take(1, g * PAGE_SIZE);
      OneStep(s, l, op);
      IntrudedTaken(s, l, g);
      var ops, t := [op], Apply(s, l, op);
      assert Reaches(s, l, ops, t) && !Clean(t, l);
    }
  }

  lemma IntrudedTaken(s: State, l: Layout, g: Frame)
    requires Safe(s, l) && s.pm.IsFree(g) && Intruded(l, g)
    ensures !Clean(Apply(s, l, Take(1, g * PAGE_SIZE)), l)
  {
    hide IsFreeMemory, PageClean, Intruded, Apply;
    TakeAt(s, l, g);
    PageCleanExact(l, g);
    assert Apply(s, l, Take(1, g * PAGE_SIZE)).live[|s.live|].Has(g);
  }

  lemma OneStep(s: State, l: Layout, op: Op)
    requires s.pm.Valid() && Allowed(s, l, op)
    ensures Reaches(s, l, [op], Apply(s, l, op))
  {
    assert [op][1..] == [];
  }

  /** A kernel of one mebibyte, boot information that starts inside a page, and one page to hand out. */
  const BOOT := Layout([], Range(0x10_0000, 0x20_0000), Range(0x20_0100, 0x20_1000),
    [MapEntry(0x10_0000, 0x20_0000, true)])
  const START := State(true, Bitmap(0x200, [false], [true]), [])

  lemma BootSafe()
    ensures Safe(START, BOOT) && Clean(START, BOOT) && START.pm.IsFree(0x200)
  {
    assert Available(BOOT.entries[0], 0x20_0000);
    assert IsFreeMemory(BOOT, 0x20_0000);
  }

  /** The page that holds the beginning of the boot information is handed out. */
  lemma BootInfoHandedOut()
    ensures START.pm.Valid() && Apply(START, BOOT, Take(1, 0)).live == [Block(0x200, 1)]
    ensures Reserved(BOOT, 0x20_0100) && 0x200 * PAGE_SIZE <= 0x20_0100 < 0x201 * PAGE_SIZE
    ensures !Clean(Apply(START, BOOT, Take(1, 0)), BOOT)
  {
    hide FirstFit, Reserved;
    var b := START.pm;
    BootSafe();
    assert b.Fits(0x200, 1, 0);
    FirstFitUnique(b, 1, 0, FirstFit(b, 1, 0), Some(0x200));
    assert Reserved(BOOT, 0x20_0100) by { BootByte(); }
    assert !PageClean(BOOT, 0x200);
    assert Apply(START, BOOT, Take(1, 0)).live[0].Has(0x200);
  }

  lemma BootByte()
    ensures Reserved(BOOT, 0x20_0100)
  {
  }

  // ---- the allocator itself

  /** What the allocator's state says about memory is what the layout says. */
  lemma ViewFollows(p: Pmm)
    requires p.Valid()
    ensures FollowsLayout(p.View(), p.layout)
  {
    hide IsFreeMemory, NothingBeyond;
    var b := p.View();
    forall g: nat | b.Covers(g) ensures b.usable[g - b.base] == IsFreeMemory(p.layout, g * PAGE_SIZE) {
      assert p.start + (g - b.base) * PAGE_SIZE == g * PAGE_SIZE;
    }
  }

  /** The state in which a run of the allocator begins, before or after its bitmap exists, is safe. */
  lemma StartSafe(p: Pmm)
    requires p.Valid()
    ensures var s := State(p.bm == null, p.View(), []); Safe(s, p.layout) && Clean(s, p.layout)
  {
    hide IsFreeMemory, NothingBeyond;
    ViewFollows(p);
  }

  /** Taking the bitmap into use is a step of a run. */
  lemma SwitchAllowed(s: State, p: Pmm)
    requires p.Valid() && p.bm != null && s.bump && s.pm.Valid() && Switched(s.pm, p.View())
    ensures Allowed(s, p.layout, Switch(p.View()))
  {
    ViewFollows(p);
  }

  /** Giving back what was just taken from the bitmap restores it exactly. */
  lemma TakeThenGiveBack(b: Bitmap, num: nat, align: nat)
    requires b.Valid() && Alloc(b, num, align).1.Some?
    ensures Alloc(b, num, align).0.Mark(Alloc(b, num, align).1.value, num, false) == b
  {
    hide Aligned;
    var (c, got) := Alloc(b, num, align);
    var d := c.Mark(got.value, num, false);
    forall i | 0 <= i < |b.bits| ensures d.bits[i] == b.bits[i] {
      var g := b.base + i;
      assert d.IsUsed(g) == b.IsUsed(g) by {
        if got.value <= g < got.value + num { assert b.IsFree(g); }
      }
    }
  }
}
