/** The physical page allocator (kernel/mm/pmm.c): a bump allocator until its bitmap exists, then a
    first-fit bitmap allocator. */
module Pmm {
  import opened Lists
  import opened PageBitmap

  /** An entry of the boot loader's memory map (section 3.6.8 of the Multiboot2 specification). */
  datatype MapEntry = MapEntry(addr: nat, len: nat, available: bool)

  /** Bytes `[start, end)`. */
  datatype Range = Range(start: nat, end: nat) {
    predicate Contains(addr: nat) { start <= addr < end }
  }

  datatype Layout = Layout(known: seq<Range>, kernel: Range, bootInfo: Range, entries: seq<MapEntry>)

  /** The page at `addr` lies in one available entry of the memory map. */
  predicate Available(e: MapEntry, addr: nat) {
    e.available && e.addr <= addr && addr + PAGE_SIZE <= e.addr + e.len
  }

  /** The page at `addr` may be handed out: it is available, and its address is in no known device
      range, not in the kernel image and not in the boot information. */
  predicate IsFreeMemory(l: Layout, addr: nat) {
    && (forall i :: 0 <= i < |l.known| ==> !l.known[i].Contains(addr))
    && !l.kernel.Contains(addr)
    && !l.bootInfo.Contains(addr)
    && (exists i :: 0 <= i < |l.entries| && Available(l.entries[i], addr))
  }

  /** The entry is available and ends at `x` or later. */
  predicate EndsAfter(e: MapEntry, x: nat) { e.available && e.addr + e.len >= x }

  /** Of the first `n` entries, the available one that ends last ends at `top`; 0 if there is none. */
  ghost predicate LastEnd(l: Layout, n: nat, top: nat)
    requires n <= |l.entries|
  {
    && (forall i :: 0 <= i < n && EndsAfter(l.entries[i], top) ==> l.entries[i].addr + l.entries[i].len == top)
    && (top > 0 ==> exists i :: 0 <= i < n && EndsAfter(l.entries[i], top))
  }

  /** No page from `end` on may be handed out. */
  ghost predicate NothingBeyond(l: Layout, end: nat) {
    forall a: nat :: end <= a && a % PAGE_SIZE == 0 ==> !IsFreeMemory(l, a)
  }

  /** Which of `n` pages from `start` on may be handed out. */
  function Usable(l: Layout, start: nat, n: nat): (u: seq<bool>)
    ensures |u| == n
  {
    seq(n, i requires 0 <= i < n => IsFreeMemory(l, start + i * PAGE_SIZE))
  }

  /** `n` bits of which the first `m` are set. */
  function Below(n: nat, m: nat): (b: seq<bool>)
    ensures |b| == n && forall i :: 0 <= i < n ==> b[i] == (i < m)
  {
    seq(n, i requires 0 <= i < n => i < m)
  }

  // ---- the scan: one pass, a counter of usable pages seen in a row

  /** After looking at `k` positions, the last `cur` of them form a run that may become the answer,
      and no position before that run can start one. */
  ghost predicate Scanned(b: Bitmap, num: nat, align: nat, k: nat, cur: nat)
    requires b.Valid()
  {
    && cur <= k <= |b.bits| && cur <= num
    && (cur > 0 ==> Aligned(b.base + k - cur, align))
    && b.RunFree(b.base + k - cur, cur)
    && forall g: nat :: b.base <= g < b.base + k - cur ==> !b.Fits(g, num, align)
  }

  /** One step of the scan: an unaligned start is skipped, a page that cannot be used resets the
      counter, any other page extends the run. */
  lemma ScanStep(b: Bitmap, num: nat, align: nat, k: nat, cur: nat)
    requires b.Valid() && Scanned(b, num, align, k, cur) && k < |b.bits| && cur < num
    ensures cur == 0 && !Aligned(b.base + k, align) ==> Scanned(b, num, align, k + 1, 0)
    ensures !b.IsFree(b.base + k) ==> Scanned(b, num, align, k + 1, 0)
    ensures b.IsFree(b.base + k) && (cur > 0 || Aligned(b.base + k, align)) ==> Scanned(b, num, align, k + 1, cur + 1)
  {
    hide Aligned;
    if cur == 0 && !Aligned(b.base + k, align) {
      assert !b.Fits(b.base + k, num, align);
    }
    if !b.IsFree(b.base + k) {
      forall g: nat | b.base + k - cur <= g <= b.base + k ensures !b.Fits(g, num, align) {
        assert g <= b.base + k < g + num;
      }
    }
  }

  /** When the scan ends, it has found the first fit, or there is none. */
  lemma ScanEnd(b: Bitmap, num: nat, align: nat, k: nat, cur: nat)
    requires b.Valid() && Scanned(b, num, align, k, cur) && num > 0 && (cur == num || k == |b.bits|)
    ensures cur <= k && IsFirstFit(b, num, align, if cur == num then Some(b.base + k - num) else None)
  {
    hide Aligned;
    if cur == num {
      assert b.IsFree(b.base + k - num);
    } else {
      forall g: nat ensures !b.Fits(g, num, align) {
        assert b.Fits(g, num, align) ==> b.IsFree(g + num - 1);
      }
    }
  }

  /** Where a request fits there are free pages of the bitmap. */
  lemma FitCovered(b: Bitmap, num: nat, align: nat, f: Frame)
    requires b.Valid() && b.Fits(f, num, align) && num > 0
    ensures b.RunFree(f, num) && b.base <= f && f + num <= b.base + |b.bits| && b.IsFree(f + num - 1)
  {
    hide Aligned;
    assert b.IsFree(f) && b.IsFree(f + num - 1);
  }

  /** The bump allocator hands out the first fit, and never looks below it again. */
  function Bump(b: Bitmap, num: nat, align: nat): (r: (Bitmap, Option<Frame>))
    requires b.Valid()
    ensures r.0.Valid() && r.0.base == b.base && r.0.usable == b.usable
    ensures r.1.Some? ==> b.RunFree(r.1.value, num)
    ensures r.1.Some? ==> forall g: nat :: b.IsUsed(g) || r.1.value <= g < r.1.value + num ==> r.0.IsUsed(g)
  {
    if num == 0 || BadAlign(align) then (b, None)
    else match FirstFit(b, num, align)
      case None => (b, None)
      case Some(f) =>
        FitCovered(b, num, align, f);
        (b.Mark(b.base, f + num - b.base, true), Some(f))
  }

  /** What the bump allocator hands out is the lowest fit as well; it answers null exactly if there is none;
      and afterwards exactly what was used and everything up to the end of the block is used. */
  lemma BumpExact(b: Bitmap, num: nat, align: nat)
    requires b.Valid()
    ensures var (c, r) := Bump(b, num, align);
            && (num > 0 && !BadAlign(align) ==> IsFirstFit(b, num, align, r))
            && (r == None <==> num == 0 || BadAlign(align) || forall f: nat :: !b.Fits(f, num, align))
            && (r == None ==> c == b)
            && (r.Some? ==> forall g: nat :: c.IsUsed(g) <==> b.IsUsed(g) || (b.Covers(g) && g < r.value + num))
  {
    hide Bitmap.Fits, Aligned;
    var r := FirstFit(b, num, align);
    if r.Some? { assert b.Fits(r.value, num, align); }
  }

  /** A bit of the bitmap, as word index and bit number. */
  datatype Pos = Pos(index: nat, bit: nat) {
    predicate Valid() { bit < 64 }
    function Flat(): nat { index * 64 + bit }

    /** The step of `__pmm_bm_pos_next` */
    function Next(): (p: Pos)
      requires Valid()
      ensures p.Valid() && p.Flat() == Flat() + 1
    {
      if bit + 1 >= 64 then Pos(index + 1, 0) else Pos(index, bit + 1)
    }
  }

  class Pmm {
    const layout: Layout
    var start: nat
    var end: nat
    var pos: nat
    var bm: array?<bool>

    constructor (layout: Layout)
      ensures this.layout == layout && bm == null && start == end == pos == 0
    {
      this.layout := layout;
      start, end, pos, bm := 0, 0, 0, null;
    }

    /** The region is page-aligned and above the kernel; once the bitmap exists, it has whole words. */
    ghost predicate Valid()
      reads this
    {
      && start % PAGE_SIZE == 0 && end % PAGE_SIZE == 0 && pos % PAGE_SIZE == 0
      && 0 < start <= pos <= end
      && (bm != null ==> bm.Length % 64 == 0 && bm.Length > 0)
      && NothingBeyond(layout, end)
    }

    /** The allocator's state as a bitmap. Before the real one exists, every page below the bump
        position counts as used. */
    ghost function View(): (b: Bitmap)
      requires Valid()
      reads this, bm
      ensures b.Valid() && b.base * PAGE_SIZE == start
    {
      if bm == null then
        var n := (end - start) / PAGE_SIZE;
        Bitmap(start / PAGE_SIZE, Below(n, (pos - start) / PAGE_SIZE), Usable(layout, start, n))
      else
        Bitmap(start / PAGE_SIZE, bm[..], Usable(layout, start, bm.Length))
    }

    /** `__pmm_is_free_memory` */
    method CheckFreeMemory(addr: nat) returns (free: bool)
      ensures free == IsFreeMemory(layout, addr)
    {
      for i := 0 to |layout.known|
        invariant forall j :: 0 <= j < i ==> !layout.known[j].Contains(addr)
      {
        if layout.known[i].Contains(addr) { return false; }
      }
      if layout.kernel.Contains(addr) || layout.bootInfo.Contains(addr) { return false; }
      for i := 0 to |layout.entries|
        invariant forall j :: 0 <= j < i ==> !Available(layout.entries[j], addr)
      {
        var e := layout.entries[i];
        if !e.available { continue; }
        if addr < e.addr || addr + PAGE_SIZE > e.addr + e.len { continue; }
        assert Available(layout.entries[i], addr);
        return true;
      }
      return false;
    }

    /** The scan of `pmm_alloc` over the bitmap. */
    method Scan(num: nat, align: nat) returns (f: Option<Frame>)
      requires Valid() && bm != null && num > 0
      ensures IsFirstFit(View(), num, align, f)
    {
      hide Scanned, IsFirstFit, Aligned, IsFreeMemory, NothingBeyond, Pos.Flat;
      ghost var b := View();
      var p, cur := Pos(0, 0), 0;
      FirstPos();
      ScanStart(b, num, align);
      while num > cur && p.index < bm.Length / 64
        invariant p.Valid() && cur <= num && p.Flat() <= bm.Length
        invariant Scanned(b, num, align, p.Flat(), cur)
        decreases bm.Length - p.Flat()
      {
        var k := p.Flat();
        IndexOf(p, bm.Length);
        ScanStep(b, num, align, k, cur);
        if cur == 0 && !Aligned(start / PAGE_SIZE + k, align) {
          p := p.Next();
          continue;
        }
        var usable := CheckFreeMemory(start + k * PAGE_SIZE);
        assert b.IsFree(b.base + k) == (!bm[k] && usable);
        cur := if bm[k] || !usable then 0 else cur + 1;
        p := p.Next();
      }
      IndexOf(p, bm.Length);
      ScanEnd(b, num, align, p.Flat(), cur);
      if cur != num { return None; }
      return Some(start / PAGE_SIZE + p.Flat() - num);
    }

    /** `__pmm_alloc_no_bm`: the same scan from the bump position on, which then moves past the
        pages handed out, and past all pages skipped. */
    method AllocNoBitmap(num: nat, align: nat) returns (r: nat)
      requires Valid() && bm == null && num > 0 && !BadAlign(align)
      modifies this`pos
      ensures Valid()
      ensures (View(), if r == 0 then None else Some(r / PAGE_SIZE)) == Bump(old(View()), num, align)
      ensures IsFirstFit(old(View()), num, align, if r == 0 then None else Some(r / PAGE_SIZE))
      ensures r % PAGE_SIZE == 0
    {
      hide Scanned, IsFirstFit, Aligned, IsFreeMemory, Bitmap.Mark, NothingBeyond;
      ghost var b := View();
      var first, k, cur := start / PAGE_SIZE, (pos - start) / PAGE_SIZE, 0;
      var n := (end - start) / PAGE_SIZE;
      ScanBump(b, num, align, k);
      while num > cur && k < n
        invariant (pos - start) / PAGE_SIZE <= k <= n && cur <= num && pos == old(pos)
        invariant Scanned(b, num, align, k, cur)
        decreases n - k
      {
        ScanStep(b, num, align, k, cur);
        if cur == 0 && !Aligned(first + k, align) {
          k := k + 1;
          continue;
        }
        var usable := CheckFreeMemory(start + k * PAGE_SIZE);
        assert b.IsFree(b.base + k) == usable;
        cur := if !usable then 0 else cur + 1;
        k := k + 1;
      }
      ScanEnd(b, num, align, k, cur);
      FirstFitUnique(b, num, align, FirstFit(b, num, align), if cur == num then Some(b.base + k - num) else None);
      if cur != num { return 0; }
      pos := start + k * PAGE_SIZE;
      r := pos - num * PAGE_SIZE;
      BumpBits(b, k, View().bits);
    }

    /** Set the bits of `num` pages from frame `f` on. */
    method SetBits(f: Frame, num: nat)
      requires Valid() && bm != null && start / PAGE_SIZE <= f && f + num <= start / PAGE_SIZE + bm.Length
      modifies bm
      ensures View() == old(View()).Mark(f, num, true)
    {
      hide NothingBeyond, IsFreeMemory, Usable, Bitmap.Mark;
      var k := f - start / PAGE_SIZE;
      var p, cur := Pos(k / 64, k % 64), 0;
      while num > cur
        invariant cur <= num && p.Valid() && p.Flat() == k + cur
        invariant forall i :: 0 <= i < bm.Length ==> bm[i] == (k <= i < k + cur || old(bm[i]))
      {
        bm[p.Flat()] := true;
        p := p.Next();
        cur := cur + 1;
      }
      MarkedBits(old(View()), f, num, true, bm[..]);
    }

    /** `pmm_alloc`: the null address, or the lowest aligned address that starts `num` free pages. */
    method AllocPages(num: nat, align: nat) returns (r: nat)
      requires Valid()
      modifies this`pos, bm
      ensures Valid() && bm == old(bm) && (bm != null ==> pos == old(pos))
      ensures (View(), if r == 0 then None else Some(r / PAGE_SIZE)) ==
                if bm == null then Bump(old(View()), num, align) else Alloc(old(View()), num, align)
      ensures num > 0 && !BadAlign(align) ==>
                IsFirstFit(old(View()), num, align, if r == 0 then None else Some(r / PAGE_SIZE))
      ensures r == 0 <==> num == 0 || BadAlign(align) || forall f: nat :: !old(View()).Fits(f, num, align)
      ensures r % PAGE_SIZE == 0
    {
      hide Aligned, NothingBeyond, IsFreeMemory, Usable, Bitmap.Mark, FirstFit;
      if BadAlign(align) || num == 0 { return 0; }
      if bm == null {
        r := AllocNoBitmap(num, align);
        return;
      }
      var f := Scan(num, align);
      FirstFitUnique(View(), num, align, f, FirstFit(View(), num, align));
      if f == None { return 0; }
      FitCovered(View(), num, align, f.value);
      SetBits(f.value, num);
      return f.value * PAGE_SIZE;
    }

    /** Clear the bits of `num` pages from frame `f` on, stopping at the first page that is outside
        the bitmap or not allocated; `freed` pages were given back. */
    method ClearBits(f: Frame, num: nat) returns (err: int, ghost freed: nat)
      requires Valid() && bm != null && View().Covers(f)
      modifies bm
      ensures err == 0 <==> forall g: nat :: f <= g < f + num ==> old(View()).IsUsed(g)
      ensures freed <= num && View() == old(View()).Mark(f, freed, false)
      ensures if err == 0 then freed == num else freed < num && !old(View()).IsUsed(f + freed)
    {
      hide NothingBeyond, IsFreeMemory, Usable, Bitmap.Mark, Pos.Flat;
      ghost var b := View();
      var k := f - start / PAGE_SIZE;
      var p, n := Pos(k / 64, k % 64), 0;
      FlatOf(k);
      while n < num
        invariant n <= num && p.Valid() && p.Flat() == k + n && k + n <= bm.Length
        invariant forall i :: 0 <= i < bm.Length ==> bm[i] == (b.bits[i] && !(k <= i < k + n))
        invariant forall i :: k <= i < k + n ==> b.bits[i]
      {
        IndexOf(p, bm.Length);
        if p.index >= bm.Length / 64 || !bm[p.Flat()] {
          MarkedBits(b, f, n, false, bm[..]);
          assert !b.IsUsed(f + n);
          return if p.index >= bm.Length / 64 then -ERANGE else -EFAULT, n;
        }
        bm[p.Flat()] := false;
        p := p.Next();
        n := n + 1;
      }
      MarkedBits(b, f, num, false, bm[..]);
      return 0, num;
    }

    /** `pmm_free`: succeeds exactly if the bitmap exists and all the pages are allocated. */
    method FreePages(paddr: nat, num: nat) returns (err: int, ghost freed: nat)
      requires Valid()
      modifies bm
      ensures var f := paddr / PAGE_SIZE;
              var b := old(View());
              && (err == 0 <==> bm != null && b.Covers(f) && forall g: nat :: f <= g < f + num ==> b.IsUsed(g))
              && freed <= num && View() == b.Mark(f, freed, false)
              && (err == 0 ==> freed == num)
              && (err != 0 && freed > 0 ==> freed < num && !b.IsUsed(f + freed))
    {
      hide NothingBeyond, IsFreeMemory, Usable, Bitmap.Mark;
      MarkedBits(View(), paddr / PAGE_SIZE, 0, false, View().bits);
      if bm == null || paddr < start || (paddr - start) / PAGE_SIZE / 64 >= bm.Length / 64 {
        return -EFAULT, 0;
      }
      err, freed := ClearBits(paddr / PAGE_SIZE, num);
    }

    /** The first half of `pmm_init`: the region between the kernel and the end of memory. */
    method InitRegion() returns (ok: bool)
      requires bm == null && layout.kernel.end > 0
      modifies this`start, this`end, this`pos
      ensures start % PAGE_SIZE == 0 && layout.kernel.end <= start < layout.kernel.end + PAGE_SIZE
      ensures ok ==> Valid() && pos == start
      ensures ok ==> exists top: nat :: LastEnd(layout, |layout.entries|, top) && end <= top < end + PAGE_SIZE
      ensures ok <==> exists i :: 0 <= i < |layout.entries| && EndsAfter(layout.entries[i], start + PAGE_SIZE)
    {
      hide RoundUp, RoundDown, NothingBeyond, IsFreeMemory;
      start, end := 0, 0;
      for i := 0 to |layout.entries|
        invariant start == 0 && LastEnd(layout, i, end)
      {
        var e := layout.entries[i];
        if !e.available { continue; }
        // an entry below `start` would move it down, but it is still 0
        if e.addr + e.len > end { end := e.addr + e.len; }
      }
      if layout.kernel.end > start { start := layout.kernel.end; }
      ghost var top := end;
      Rounding(start);
      Rounding(end);
      start, end := RoundUp(start, PAGE_SIZE), RoundDown(end, PAGE_SIZE);
      pos := start;
      ok := end > start && end >= pos >= start;
      RoomForPages(layout, top, start);
      if ok {
        assert NothingBeyond(layout, end) by { BeyondTop(layout, top); }
      }
    }

    /** A bitmap of `n` bits with the first `m` set. */
    method MarkBelow(n: nat, m: nat) returns (a: array<bool>)
      requires m <= n
      ensures fresh(a) && a.Length == n && forall i :: 0 <= i < n ==> a[i] == (i < m)
    {
      hide Pos.Flat;
      a := new bool[n](i => false);
      var p := Pos(0, 0);
      FirstPos();
      while m > p.Flat()
        invariant p.Valid() && p.Flat() <= m
        invariant forall i :: 0 <= i < n ==> a[i] == (i < p.Flat())
        decreases m - p.Flat()
      {
        a[p.Flat()] := true;
        p := p.Next();
      }
    }

    /** The second half of `pmm_init`, once the bitmap has been mapped: every page below the bump
        position is marked, so nothing that was handed out can be handed out again. If the bump
        position is beyond the bitmap, the marking would write past its end (`overrun`). */
    method EnableBitmap() returns (ok: bool, overrun: bool)
      requires Valid() && bm == null
      modifies this`bm
      ensures Valid() && (ok <==> bm != null) && (bm != null ==> fresh(bm))
      ensures (overrun <==> Overruns(start, pos, end)) && (ok <==> (end - start) / PAGE_SIZE >= 8 && !overrun)
      ensures ok ==> Switched(old(View()), View())
    {
      hide NothingBeyond, IsFreeMemory, Usable, Switched, RoundUp, BitmapBytes;
      ghost var b := View();
      WholePages(start, pos, end);
      var n := (end - start) / PAGE_SIZE;
      BitmapWords(n);
      EmptyBitmap(n);
      var bits := BitmapBytes(n) * 8;
      if bits == 0 { return false, false; }
      var m := (pos - start) / PAGE_SIZE;
      if m > bits { return false, true; }
      bm := MarkBelow(bits, m);
      SwitchedBits(b, View(), layout, m);
      return true, false;
    }
  }

  lemma FlatOf(k: nat)
    ensures Pos(k / 64, k % 64).Flat() == k
  {
  }

  /** A bit lies in the bitmap exactly if its word does. */
  lemma IndexOf(p: Pos, n: nat)
    requires p.Valid() && n % 64 == 0
    ensures p.index < n / 64 <==> p.Flat() < n
  {
  }

  lemma FirstPos()
    ensures Pos(0, 0).Flat() == 0
  {
  }

  const EFAULT := 14
  const ERANGE := 34

  lemma BeyondTop(l: Layout, top: nat)
    requires LastEnd(l, |l.entries|, top)
    ensures NothingBeyond(l, RoundDown(top, PAGE_SIZE))
  {
    forall i | 0 <= i < |l.entries| && l.entries[i].available ensures l.entries[i].addr + l.entries[i].len <= top {
      assert l.entries[i].addr + l.entries[i].len > top ==> EndsAfter(l.entries[i], top);
    }
    forall a: nat | RoundDown(top, PAGE_SIZE) <= a && a % PAGE_SIZE == 0 ensures !IsFreeMemory(l, a) {
      assert a + PAGE_SIZE > top;
    }
  }

  /** There is a whole page from `start` on exactly if some available entry reaches that far. */
  lemma RoomForPages(l: Layout, top: nat, start: nat)
    requires LastEnd(l, |l.entries|, top) && start % PAGE_SIZE == 0
    ensures RoundDown(top, PAGE_SIZE) > start <==>
            exists i :: 0 <= i < |l.entries| && EndsAfter(l.entries[i], start + PAGE_SIZE)
  {
    assert RoundDown(top, PAGE_SIZE) > start <==> top >= start + PAGE_SIZE;
    if top >= start + PAGE_SIZE {
      var i :| 0 <= i < |l.entries| && EndsAfter(l.entries[i], top);
      assert EndsAfter(l.entries[i], start + PAGE_SIZE);
    }
    if i :| 0 <= i < |l.entries| && EndsAfter(l.entries[i], start + PAGE_SIZE) {
      assert top < start + PAGE_SIZE ==> EndsAfter(l.entries[i], top);
    }
  }

  // ---- setting up

  /** The bitmap that takes over: what was used stays used, what is free was free, and of what was
      free only pages outside the new bitmap are lost. */
  ghost predicate Switched(b: Bitmap, c: Bitmap)
    requires b.Valid() && c.Valid()
  {
    && c.base == b.base
    && (forall g: nat :: b.IsUsed(g) ==> c.IsUsed(g))
    && (forall g: nat :: c.IsFree(g) ==> b.IsFree(g))
    && (forall g: nat :: b.IsFree(g) && c.Covers(g) ==> c.IsFree(g))
    && (forall g: nat :: b.Covers(g) && c.Covers(g) ==> c.usable[g - c.base] == b.usable[g - b.base])
  }

  lemma SwitchedBits(b: Bitmap, c: Bitmap, l: Layout, m: nat)
    requires b.Valid() && c.Valid() && c.base == b.base && m <= |b.bits| && m <= |c.bits|
    requires b.usable == Usable(l, b.base * PAGE_SIZE, |b.bits|) && c.usable == Usable(l, b.base * PAGE_SIZE, |c.bits|)
    requires forall i :: 0 <= i < |b.bits| ==> b.bits[i] == (i < m)
    requires forall i :: 0 <= i < |c.bits| ==> c.bits[i] == (i < m)
    requires NothingBeyond(l, (b.base + |b.bits|) * PAGE_SIZE)
    ensures Switched(b, c)
  {
    forall g: nat | c.IsFree(g) ensures b.IsFree(g) {
      var i := g - b.base;
      assert IsFreeMemory(l, b.base * PAGE_SIZE + i * PAGE_SIZE);
      assert (b.base * PAGE_SIZE + i * PAGE_SIZE) % PAGE_SIZE == 0;
    }
  }

  function RoundUp(x: nat, f: nat): nat
    requires f > 0
  {
    (x + f - 1) / f * f
  }

  function RoundDown(x: nat, f: nat): nat
    requires f > 0
  {
    x / f * f
  }

  lemma Rounding(x: nat)
    ensures var u, d := RoundUp(x, PAGE_SIZE), RoundDown(x, PAGE_SIZE);
            u % PAGE_SIZE == 0 && d % PAGE_SIZE == 0 && d <= x <= u < x + PAGE_SIZE && x < d + PAGE_SIZE
  {
  }

  /** A region of whole pages. */
  lemma WholePages(start: nat, pos: nat, end: nat)
    requires start % PAGE_SIZE == 0 && end % PAGE_SIZE == 0 && start <= pos <= end
    ensures start / PAGE_SIZE * PAGE_SIZE == start && (pos - start) / PAGE_SIZE <= (end - start) / PAGE_SIZE
    ensures (start / PAGE_SIZE + (end - start) / PAGE_SIZE) * PAGE_SIZE == end
  {
  }

  /** Bytes of bitmap for `n` pages. */
  function BitmapBytes(n: nat): nat { RoundUp(n / 8, PAGE_SIZE) }

  /** The size of the bitmap is rounded down to whole bytes before it is rounded up to whole pages,
      so the last few pages are left out exactly if the bytes already filled whole pages. */
  lemma CoverageExact(n: nat)
    ensures BitmapBytes(n) * 8 >= n <==> n % 8 == 0 || n / 8 % PAGE_SIZE != 0
    ensures BitmapBytes(n) * 8 > n - 8 && BitmapBytes(n) % PAGE_SIZE == 0
  {
    var m := n / 8;
    assert BitmapBytes(n) == (m + PAGE_SIZE - 1) / PAGE_SIZE * PAGE_SIZE;
    if m % PAGE_SIZE == 0 {
      assert (m + PAGE_SIZE - 1) / PAGE_SIZE == m / PAGE_SIZE;
    } else {
      assert (m + PAGE_SIZE - 1) / PAGE_SIZE == m / PAGE_SIZE + 1;
    }
  }

  /** Pages that were handed out have no bit in the bitmap, so that marking them writes past its end. */
  predicate Overruns(start: nat, pos: nat, end: nat)
    requires start <= pos <= end
  {
    var n := (end - start) / PAGE_SIZE;
    n >= 8 && (pos - start) / PAGE_SIZE > BitmapBytes(n) * 8
  }

  /** The bitmap can be overrun exactly if it does not cover the region: then it is if all pages have been
      handed out. */
  lemma OverrunExact(start: nat, end: nat)
    requires start % PAGE_SIZE == 0 && end % PAGE_SIZE == 0 && start <= end
    ensures var n := (end - start) / PAGE_SIZE;
            Overruns(start, end, end) <==> n >= 8 && n % 8 != 0 && n / 8 % PAGE_SIZE == 0
    ensures forall pos: nat :: start <= pos <= end && Overruns(start, pos, end) ==> Overruns(start, end, end)
  {
    hide BitmapBytes;
    CoverageExact((end - start) / PAGE_SIZE);
    forall pos: nat | start <= pos <= end && Overruns(start, pos, end) ensures Overruns(start, end, end) {
      WholePages(start, pos, end);
    }
  }

  /** 32769 pages, all handed out. */
  lemma OverrunHappens(start: nat)
    ensures Overruns(start, start + 32769 * PAGE_SIZE, start + 32769 * PAGE_SIZE)
  {
    hide BitmapBytes;
    CoverageFails();
    assert 32769 * PAGE_SIZE / PAGE_SIZE == 32769;
  }

  /** A region whose last page gets no bit. */
  lemma CoverageFails()
    ensures BitmapBytes(32769) * 8 == 32768
  {
    assert (4096 + PAGE_SIZE - 1) / PAGE_SIZE == 1;
  }

  /** It has whole words. */
  lemma BitmapWords(n: nat)
    ensures BitmapBytes(n) * 8 % 64 == 0
  {
    CoverageExact(n);
    assert BitmapBytes(n) * 8 == 64 * (512 * (BitmapBytes(n) / PAGE_SIZE));
  }

  lemma EmptyBitmap(n: nat)
    ensures BitmapBytes(n) == 0 <==> n < 8
  {
  }

  /** After the bump position moved to the end of the block, everything below it is used. */
  lemma BumpBits(b: Bitmap, k: nat, bits: seq<bool>)
    requires |bits| == |b.bits| && k <= |b.bits| && forall i :: 0 <= i < |bits| ==> bits[i] == (i < k)
    requires forall i :: k <= i < |b.bits| ==> !b.bits[i]
    ensures b.Mark(b.base, k, true) == b.(bits := bits)
  {
    MarkedBits(b, b.base, k, true, bits);
  }

  lemma ScanBump(b: Bitmap, num: nat, align: nat, k: nat)
    requires b.Valid() && k <= |b.bits| && num > 0 && forall i :: 0 <= i < k ==> b.bits[i]
    ensures Scanned(b, num, align, k, 0)
  {
    forall g: nat | b.base <= g < b.base + k ensures !b.Fits(g, num, align) {
      assert b.bits[g - b.base] && !b.IsFree(g);
    }
  }

  lemma ScanStart(b: Bitmap, num: nat, align: nat)
    requires b.Valid()
    ensures Scanned(b, num, align, 0, 0)
  {
  }
}
