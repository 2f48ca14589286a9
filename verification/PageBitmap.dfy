/** The value of the physical page bitmap and what a first-fit search over it means.

    Frame `base + i` is described by position `i`: `bits[i]` is the allocation bit and `usable[i]`
    says whether the page lies in available memory outside the kernel, the boot information and
    the known device ranges. */
module PageBitmap {
  import opened Lists

  const PAGE_SIZE := 4096

  type Frame = nat

  datatype Bitmap = Bitmap(base: Frame, bits: seq<bool>, usable: seq<bool>) {
    ghost predicate Valid() { |bits| == |usable| && base > 0 }

    /** The frame has a position in the bitmap. */
    predicate Covers(f: Frame) { base <= f < base + |bits| }

    predicate IsUsed(f: Frame) { Covers(f) && bits[f - base] }

    /** The frame can still be handed out. */
    predicate IsFree(f: Frame)
      requires Valid()
    {
      Covers(f) && !bits[f - base] && usable[f - base]
    }

    /** `num` consecutive frames from `f` can be handed out. */
    predicate RunFree(f: Frame, num: nat)
      requires Valid()
    {
      forall g: nat :: f <= g < f + num ==> IsFree(g)
    }

    /** A request for `num` frames with this byte alignment can be served at `f`. */
    predicate Fits(f: Frame, num: nat, align: nat)
      requires Valid()
    {
      Covers(f) && Aligned(f, align) && RunFree(f, num)
    }

    /** The bitmap with the bits of `[f, f + num)` set to `v`. */
    function Mark(f: Frame, num: nat, v: bool): (b: Bitmap)
      ensures b.base == base && b.usable == usable && |b.bits| == |bits|
      ensures forall g: nat :: b.IsUsed(g) == if f <= g < f + num && Covers(g) then v else IsUsed(g)
    {
      var b := this.(bits := seq(|bits|, i requires 0 <= i < |bits| => if f <= base + i < f + num then v else bits[i]));
      assert forall g: nat :: Covers(g) ==> b.bits[g - base] == if f <= g < f + num then v else bits[g - base];
      b
    }
  }

  /** Bits that differ from those of `b` in `[f, f + num)` only. */
  lemma MarkedBits(b: Bitmap, f: Frame, num: nat, v: bool, bits: seq<bool>)
    requires |bits| == |b.bits|
    requires forall i :: 0 <= i < |bits| ==> bits[i] == if f <= b.base + i < f + num then v else b.bits[i]
    ensures b.Mark(f, num, v) == b.(bits := bits)
  {
    assert b.Mark(f, num, v).bits == bits;
  }

  /** Byte alignment of a frame, where 0 asks for none. */
  predicate Aligned(f: Frame, align: nat) {
    align == 0 || (f * PAGE_SIZE) % align == 0
  }

  /** `r` is the lowest frame that can serve the request, or there is none. */
  ghost predicate IsFirstFit(b: Bitmap, num: nat, align: nat, r: Option<Frame>)
    requires b.Valid()
  {
    match r
    case Some(f) => b.Fits(f, num, align) && forall g: nat :: b.base <= g < f ==> !b.Fits(g, num, align)
    case None => forall g: nat :: !b.Fits(g, num, align)
  }

  /** The result of a first-fit search is unique. */
  lemma FirstFitUnique(b: Bitmap, num: nat, align: nat, r: Option<Frame>, q: Option<Frame>)
    requires b.Valid() && IsFirstFit(b, num, align, r) && IsFirstFit(b, num, align, q)
    ensures r == q
  {
    if r.Some? && q.Some? {
      assert !(r.value < q.value) && !(q.value < r.value);
    }
  }

  /** The first fit at position `i` or above, knowing that nothing below fits. */
  function FirstFit(b: Bitmap, num: nat, align: nat, i: nat := 0): (r: Option<Frame>)
    requires b.Valid() && i <= |b.bits|
    requires forall g: nat :: b.base <= g < b.base + i ==> !b.Fits(g, num, align)
    ensures IsFirstFit(b, num, align, r)
    decreases |b.bits| - i
  {
    if i == |b.bits| then None
    else if b.Fits(b.base + i, num, align) then Some(b.base + i)
    else FirstFit(b, num, align, i + 1)
  }

  /** Alignments that the allocator refuses: they neither divide a page nor are a multiple of one. */
  predicate BadAlign(align: nat) {
    align != 0 && ((PAGE_SIZE > align && PAGE_SIZE % align != 0) || (align > PAGE_SIZE && align % PAGE_SIZE != 0))
  }

  /** What `pmm_alloc` does to the bitmap and which frame it returns; a request for no pages gets
      the null address. */
  function Alloc(b: Bitmap, num: nat, align: nat): (r: (Bitmap, Option<Frame>))
    requires b.Valid()
    ensures r.0.Valid() && r.0.base == b.base && r.0.usable == b.usable
    ensures r.1.Some? ==> num > 0 && b.RunFree(r.1.value, num) && Aligned(r.1.value, align)
    ensures r.1.Some? ==> forall g: nat :: r.0.IsUsed(g) <==> b.IsUsed(g) || r.1.value <= g < r.1.value + num
  {
    if num == 0 || BadAlign(align) then (b, None)
    else match FirstFit(b, num, align)
      case None => (b, None)
      case Some(f) =>
        assert forall g: nat :: f <= g < f + num ==> b.IsFree(g) && b.Covers(g);
        (b.Mark(f, num, true), Some(f))
  }

  /** `pmm_alloc` answers with the lowest aligned frame that starts `num` free ones, and takes exactly those;
      it answers null, and takes nothing, exactly if there is no such frame, no page is asked for, or the
      alignment is refused. */
  lemma AllocExact(b: Bitmap, num: nat, align: nat)
    requires b.Valid()
    ensures var (c, r) := Alloc(b, num, align);
            && (num > 0 && !BadAlign(align) ==> IsFirstFit(b, num, align, r))
            && (r == None <==> num == 0 || BadAlign(align) || forall f: nat :: !b.Fits(f, num, align))
            && c == if r == None then b else b.Mark(r.value, num, true)
  {
    hide Bitmap.Fits, Aligned;
    var r := FirstFit(b, num, align);
    if r.Some? { assert b.Fits(r.value, num, align); }
  }

  function Times(k: nat, a: nat): nat { k * a }

  ghost predicate Divides(a: nat, b: nat) { exists k: nat :: Times(k, a) == b }

  /** The alignments that are refused are those that neither divide a page nor are divided by one. */
  lemma AlignRefused(align: nat)
    ensures BadAlign(align) <==> align != 0 && !Divides(align, PAGE_SIZE) && !Divides(PAGE_SIZE, align)
  {
    if align != 0 {
      DividesExact(align, PAGE_SIZE);
      DividesExact(PAGE_SIZE, align);
      if align > PAGE_SIZE { assert PAGE_SIZE % align == PAGE_SIZE; }
      if align < PAGE_SIZE { assert align % PAGE_SIZE == align; }
    }
  }

  lemma DividesExact(a: nat, b: nat)
    requires a > 0
    ensures Divides(a, b) <==> b % a == 0
  {
    var q := b / a;
    assert b == Times(q, a) + b % a && b < Times(q + 1, a);
    if k: nat :| Times(k, a) == b {
      if q + 1 <= k { TimesOrder(q + 1, k, a); } else { TimesOrder(k, q, a); }
    }
  }

  lemma TimesOrder(k: nat, q: nat, a: nat)
    requires k <= q
    ensures Times(k, a) <= Times(q, a)
  {
  }
}
