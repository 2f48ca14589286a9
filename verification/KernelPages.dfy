/** Where the kernel maps what it needs for itself (kernel/mm/vmm.c, `__vmm_find_contiguous`): the lowest
    run of unmapped pages of its area. */
module KernelPages {
  import opened Lists
  import opened PageTables
  import opened PageMap

  /** The first kernel page. */
  const FIRST := 0x8_0000_0000
  /** How many pages lie below one slot of the PML4. */
  const SLOT_PAGES := 0x800_0000
  /** The first page of the window. */
  const WINDOW_PAGE := WINDOW * SLOT_PAGES

  /** A page of the kernel half. */
  predicate KernelPage(u: nat) { IsPage(u) && I4(u) >= KERNEL_SLOT }

  /** The pages from `u` on are unmapped. */
  predicate RunUnmapped(s: Space, u: nat, num: nat) {
    forall q: nat :: u <= q < u + num ==> Lookup(s.mem, s.cr3, q) == ZERO
  }

  /** The lowest run of unmapped kernel pages from `p` on. The scan of the kernel has no end of its own;
      None if it reaches the window. */
  function Find(s: Space, num: nat, p: nat := FIRST): (r: Option<nat>)
    requires p <= WINDOW_PAGE
    ensures r.Some? ==> IsLowest(s, num, p, r.value)
    ensures r.None? ==> forall q: nat :: p <= q && q + num <= WINDOW_PAGE ==> !RunUnmapped(s, q, num)
    decreases WINDOW_PAGE - p
  {
    if p + num <= WINDOW_PAGE && RunUnmapped(s, p, num) then Some(p)
    else if p == WINDOW_PAGE then None
    else Find(s, num, p + 1)
  }

  ghost predicate IsLowest(s: Space, num: nat, p: nat, r: nat) {
    && p <= r && r + num <= WINDOW_PAGE && RunUnmapped(s, r, num)
    && forall q: nat :: p <= q < r ==> !RunUnmapped(s, q, num)
  }

  /** There is only one lowest run. */
  lemma FindIs(s: Space, num: nat, r: nat)
    requires IsLowest(s, num, FIRST, r)
    ensures Find(s, num) == Some(r)
  {
    hide RunUnmapped;
    var f := Find(s, num);
    assert f.Some? && !(f.value < r) && !(r < f.value);
  }

  /** What is found depends on the translations alone. */
  lemma FindSame(s: Space, t: Space, num: nat)
    requires t.cr3 == s.cr3 && forall u: nat :: IsPage(u) ==> Lookup(t.mem, s.cr3, u) == Lookup(s.mem, s.cr3, u)
    ensures Find(t, num) == Find(s, num)
  {
    hide Lookup, IsPage;
    forall u: nat | FIRST <= u < WINDOW_PAGE ensures Lookup(t.mem, s.cr3, u) == Lookup(s.mem, s.cr3, u) {
      BeforeWindow(u);
    }
    assert forall q: nat :: FIRST <= q && q + num <= WINDOW_PAGE ==> RunUnmapped(s, q, num) == RunUnmapped(t, q, num);
    if r: nat :| Find(s, num) == Some(r) {
      assert IsLowest(t, num, FIRST, r);
      FindIs(t, num, r);
    }
    if r: nat :| Find(t, num) == Some(r) {
      assert IsLowest(s, num, FIRST, r);
      FindIs(s, num, r);
    }
  }

  lemma BeforeWindow(u: nat)
    requires FIRST <= u < WINDOW_PAGE
    ensures KernelPage(u) && I4(u) == u / SLOT_PAGES && I4(u) < WINDOW
  {
  }

  /** All pages below the lowest unmapped one are mapped. */
  lemma AllBelow(s: Space, v: nat, u: nat)
    requires Find(s, 1) == Some(v) && FIRST <= u < v
    ensures Lookup(s.mem, s.cr3, u) != ZERO
  {
    hide Lookup;
    assert !RunUnmapped(s, u, 1);
  }

  /** The first page below the slot of page `u`. */
  function SlotStart(u: nat): nat { u / SLOT_PAGES * SLOT_PAGES }

  /** If the slot of a page begins below the lowest unmapped page, its first page is mapped. */
  lemma StartMapped(s: Space, v: nat, u: nat)
    requires Find(s, 1) == Some(v) && FIRST <= u < WINDOW_PAGE && SlotStart(u) < v
    ensures IsPage(SlotStart(u)) && I4(SlotStart(u)) == I4(u) && Lookup(s.mem, s.cr3, SlotStart(u)) != ZERO
  {
    hide Lookup;
    var b := SlotStart(u);
    assert FIRST <= b < WINDOW_PAGE && b / SLOT_PAGES == u / SLOT_PAGES by {
      assert FIRST == 256 * SLOT_PAGES && u / SLOT_PAGES >= 256;
    }
    BeforeWindow(b);
    BeforeWindow(u);
    AllBelow(s, v, b);
  }
}
