/** The heap as the kernel runs it (kernel/mm/heap.c): links and tags are words in memory, the list
    is known by its two ends, and pages come from the virtual memory manager one at a time. */
module KernelHeap {
  import opened Lists
  import opened HeapSpec
  import opened HeapLinks
  import opened HeapGrow
  import opened HeapWrites

  class KernelHeap {
    var mem: Mem
    var first: nat
    var last: nat
    var pages: seq<nat>
    ghost var view: Heap

    constructor (pages: seq<nat>)
      requires Heap([], map[], pages).Inv()
      ensures Valid() && view == Heap([], map[], pages)
    {
      mem, first, last := map[], 0, 0;
      this.pages := pages;
      view := Heap([], map[], pages);
    }

    ghost predicate Valid()
      reads this
    {
      view.Inv() && view.pages == pages && Linked(mem, first, last, view.free) && Tagged(mem, view.live)
    }

    /** Link `k` chunks from `a` on to each other; the first keeps its backward link. */
    method LinkRun(a: nat, k: nat, clear: bool)
      requires a % CHUNK == 0
      modifies this`mem
      ensures RunLinked(mem, a, k, Prev(old(mem), a), a + CHUNK * k)
      ensures forall x: nat :: !(a <= x < a + CHUNK * k) ==> Get(mem, x) == Get(old(mem), x)
    {
      hide RunLinked;
      var i, cur := 0, a;
      assert RunLinked(mem, a, 0, Prev(mem, a), a) by { NoRun(mem, a); }
      while i < k
        invariant i <= k && cur == a + CHUNK * i
        invariant RunLinked(mem, a, i, Prev(old(mem), a), cur)
        invariant forall x: nat :: !(a <= x < cur) ==> Get(mem, x) == Get(old(mem), x)
      {
        ghost var m := mem;
        if clear { mem := mem[cur + 16 := 0][cur + 24 := 0]; }
        if i != 0 { mem := mem[cur + 8 := cur - CHUNK]; }
        mem := mem[cur := cur + CHUNK];
        RunStep(m, mem, a, i, Prev(old(mem), a));
        i, cur := i + 1, cur + CHUNK;
      }
    }

    /** `__heap_extend` */
    method Extend() returns (ok: bool)
      requires Valid()
      modifies this
      ensures Valid() && view == HeapSpec.Extend(old(view)) && ok == (old(pages) != [])
      ensures PayloadsKept(old(mem), mem, view.live)
    {
      hide RunLinked, Linked, Tagged, PayloadsKept, Heap.Inv, Grew;
      NothingMoved(mem, view.live);
      if pages == [] { return false; }
      ghost var h, m0 := view, mem;
      Extending(h);
      PageAligned(h);
      var cur := pages[0];
      pages := pages[1..];
      ghost var first0, last0 := first, last;
      if first == 0 { first := cur; }
      if last != 0 { mem := mem[last := cur]; }
      mem := mem[cur + 8 := last];
      ghost var m1 := mem;
      LinkRun(cur, CHUNKS_PER_PAGE, true);
      ghost var m2 := mem;
      last := cur + CHUNK * (CHUNKS_PER_PAGE - 1);
      mem := mem[last := 0];
      view := HeapSpec.Extend(h);
      RunFirst(m2, cur, CHUNKS_PER_PAGE, last0, cur + PAGE_SIZE);
      RunEnds(m2, mem, cur, CHUNKS_PER_PAGE, last0, cur + PAGE_SIZE, last0, 0);
      ExtendLinks(h, m0, m1, m2, mem, first0, last0, cur);
      return true;
    }

    /** `__heap_chunk_next`: the chunk after `cur`, or the first; the heap grows rather than end. */
    method ChunkNext(cur: nat, ghost i: nat) returns (next: nat)
      requires Valid() && (cur != 0 ==> i < |view.free| && cur == view.free[i])
      modifies this
      ensures Valid() && PayloadsKept(old(mem), mem, view.live)
      ensures var at := if cur == 0 then 0 else i + 1;
              && view == (if at < |old(view).free| then old(view) else HeapSpec.Extend(old(view)))
              && next == (if at < |view.free| then view.free[at] else 0)
    {
      hide Heap.Inv, Tagged, PayloadsKept, LinkedAt;
      NothingMoved(mem, view.live);
      if first == 0 || last == 0 {
        assert view.free == [] by { EmptyList(mem, first, last, view); }
        var ok := Extend();
      }
      ListEnds(mem, first, last, view);
      if cur == 0 { return first; }
      LinkOf(mem, first, last, view.free, i);
      if Next(mem, cur) == 0 {
        ghost var h := view;
        SortedList(h);
        var ok := Extend();
        LinkOf(mem, first, last, view.free, i);
      }
      SortedList(view);
      return Next(mem, cur);
    }

    /** Take the run from `start` to `end` off the list and make it an allocation. */
    method Unlink(start: nat, end: nat, total: nat, ghost f: nat, ghost to: nat)
      requires Valid() && f < to <= |view.free| && Adjacent(view.free, f, to)
      requires start == view.free[f] && end == view.free[to - 1] && total == Bytes(to - f)
      modifies this
      ensures Valid() && view == Take(old(view), f, to) && PayloadsKept(old(mem), mem, old(view).live)
    {
      hide Heap.Inv, Tagged, PayloadsKept, Adjacent, Linked;
      ghost var h, m := view, mem;
      var prev, next := Prev(mem, start), Next(mem, end);
      if prev != 0 { mem := mem[prev := next]; }
      if next != 0 { mem := mem[next + 8 := prev]; }
      assert mem == Bypass(m, start, end);
      if first == start { first := next; }
      if last == end { last := prev; }
      mem := mem[start := MAGIC];
      mem := mem[start + 8 := total];
      view := Take(h, f, to);
      Unlinking(h, m, mem, old(first), old(last), first, last, f, to);
    }

    /** `heap_alloc`: a block of at least `size` bytes, or the null address. */
    method AllocBytes(size: nat) returns (r: nat)
      requires Valid() && size > 0
      modifies this
      ensures Valid() && PayloadsKept(old(mem), mem, old(view).live)
      ensures (view, if r == 0 then None else Some(r - CHUNK_META)) == Alloc(old(view), size)
    {
      hide Heap.Inv, Tagged, PayloadsKept, Linked, Adjacent, Grew, HeapSpec.Extend, Walking, Collect, Search, Sorted,
        Bytes;
      ghost var h0, m0 := view, mem;
      var start: nat, end: nat, total: nat := 0, 0, 0;
      var cur := ChunkNext(0, 0);
      ghost var h1 := view;
      ExtendFacts(h0);
      SortedList(h1);
      if cur == 0 { return 0; }
      ghost var i: nat, from: Option<nat> := 0, None;
      WalkStart(h1.free);
      while cur != 0 && total < size
        invariant Valid() && PayloadsKept(m0, mem, h0.live) && view.live == h0.live
        invariant cur == 0 ==> Search(h1, 0, None, size) == (view, None)
        invariant cur != 0 ==> Walking(view.free, i, from, cur, start, end, total)
        invariant cur != 0 ==> i < |view.free| && (from.Some? ==> from.value < i)
        invariant cur != 0 ==> Search(view, i, from, size) == Search(h1, 0, None, size)
        decreases if cur == 0 then 0 else 1, |view.pages|, |view.free| - i
      {
        ghost var h, m, start0, end0, total0 := view, mem, start, end, total;
        SortedList(h);
        ExtendFacts(h);
        SearchStep(h, i, from, cur, start, end, total, size);
        if start == 0 {
          total := CHUNK_DATA;
          start := cur;
        } else if end + CHUNK != cur {
          total, start := 0, 0;
        } else {
          total := total + CHUNK;
        }
        end := cur;
        cur := ChunkNext(cur, i);
        KeptTrans(m0, m, mem, h0.live);
        SortedList(view);
        if cur != 0 { WalkStep(h.free, view.free, i, from, end, start0, end0, total0, start, total); }
        i, from := i + 1, Collect(h.free, i, from);
      }
      if cur == 0 { return 0; }
      ghost var m2 := mem;
      ghost var n := Searching(h1, 0, None, size);
      SearchEnds(view, i, from, cur, start, end, total, size);
      Unlink(start, end, total, from.value, i);
      KeptTrans(m0, m2, mem, h0.live);
      return start + CHUNK_META;
    }

    /** `heap_free`: nothing for the null address, a panic for an address that is not tagged. */
    method FreeMem(p: nat) returns (panicked: bool)
      requires Valid()
      requires p >= CHUNK_META && Next(mem, p - CHUNK_META) == MAGIC ==> p - CHUNK_META in view.live
      modifies this
      ensures Valid() && PayloadsKept(old(mem), mem, view.live)
      ensures panicked == (p != 0 && (p < CHUNK_META || Next(old(mem), p - CHUNK_META) != MAGIC))
      ensures view == if p == 0 || panicked then old(view) else Free(old(view), p - CHUNK_META)
    {
      hide Heap.Inv, Tagged, PayloadsKept, RunLinked, Linked, Below;
      NothingMoved(mem, view.live);
      if p == 0 { return false; }
      if CHUNK_META > p || Next(mem, p - CHUNK_META) != MAGIC { return true; }
      var start := p - CHUNK_META;
      var end := p + Prev(mem, start) - CHUNK;
      ghost var h, m0, k := view, mem, view.live[start];
      BlockFacts(h, m0, start);
      LinkRun(start, (end - start) / CHUNK + 1, false);
      ghost var m1 := mem;
      mem := mem[start + 8 := 0];
      mem := mem[end := 0];
      ghost var n := Place(h, m0, m1, start, end, k);
      ghost var m2 := mem;
      BesideBlock(h, start);
      var prev := Prev(mem, start);
      if prev != 0 { mem := mem[prev := start]; } else { first := start; }
      var next := Next(mem, end);
      if next != 0 { mem := mem[next + 8 := end]; } else { last := end; }
      view := HeapSpec.Free(h, start);
      FreeLinks(h, m0, m1, m2, mem, old(first), old(last), start);
      return false;
    }

    /** The scan of `heap_free`: the outer links of the run become its neighbours on the list. */
    method Place(ghost h: Heap, ghost m0: Mem, ghost m1: Mem, start: nat, end: nat, ghost k: nat) returns (ghost n: nat)
      requires h.Inv() && start in h.live && k == h.live[start] > 0 && end == start + CHUNK * (k - 1)
      requires Linked(m0, first, last, h.free)
      requires forall x: nat :: !(start <= x < start + CHUNK * k) ==> Get(m1, x) == Get(m0, x)
      requires mem == m1[start + 8 := 0][end := 0]
      modifies this`mem
      ensures n == Below(h.free, start)
      ensures Prev(mem, start) == At(h.free, n - 1) && Next(mem, end) == At(h.free, n)
      ensures forall x: nat :: x != start + 8 && x != end ==> Get(mem, x) == Get(m1, x)
    {
      hide Heap.Inv, Linked, Below;
      ghost var s := h.free;
      n := Below(s, start);
      ListEnds(m0, first, last, h);
      ghost var j: nat := 0;
      var cur := first;
      while cur != 0
        invariant j <= |s| && cur == At(s, j)
        invariant Prev(mem, start) == At(s, (if j < n then j else n) - 1)
        invariant Next(mem, end) == if j > n then At(s, n) else 0
        invariant forall x: nat :: x != start + 8 && x != end ==> Get(mem, x) == Get(m1, x)
        decreases |s| - j
      {
        PlaceStep(h, m0, first, last, start, j);
        if start > cur { mem := mem[start + 8 := cur]; }
        if Prev(mem, start) == Prev(mem, cur) && end < cur { mem := mem[end := cur]; }
        cur, j := Next(mem, cur), j + 1;
      }
      AtEnd(h, j);
    }

    /** The scan of `heap_realloc`: the free chunks that follow the block, as many as it lacks. */
    method Claim(start: nat, size: nat) returns (from: nat, to: nat, total: nat)
      requires Valid() && start in view.live && Prev(mem, start) < size
      ensures view.live[start] > 0
      ensures var k, n := view.live[start], Below(view.free, start);
              var m := Missing(k, size);
              && (total >= size <==> Room(view, start, m))
              && (total >= size ==>
                     m > 0 && from == view.free[n] && to == view.free[n + m - 1] && total == Bytes(k + m))
    {
      hide Heap.Inv, Linked, Tagged, Below, Claiming, Room, Missing;
      BlockFacts(view, mem, start);
      ListEnds(mem, first, last, view);
      ghost var s, k, n := view.free, view.live[start], Below(view.free, start);
      from, to, total := 0, start + CHUNK * ((Prev(mem, start) - CHUNK_DATA) / CHUNK), Prev(mem, start);
      var cur := first;
      ghost var j: nat, m: nat := 0, 0;
      ClaimStart(view, start, size);
      while size > total && cur != 0
        invariant j <= |s| && cur == At(s, j) && Claiming(s, n, start + CHUNK * k, j, m)
        invariant to == start + CHUNK * (k + m - 1) && total == Bytes(k + m) && Bytes(k + m - 1) < size
        invariant from == if m > 0 then At(s, n) else 0
        decreases |s| - j
      {
        ClaimStep(view, start, j, m);
        SortedAt(view, j);
        LinkOf(mem, first, last, s, j);
        if to + CHUNK == cur {
          to := cur;
          total := total + CHUNK;
          if from == 0 { from := to; }
          m := m + 1;
        }
        cur, j := Next(mem, cur), j + 1;
      }
      ClaimEnd(view, start, size, j, m);
    }

    /** The block at `start` takes over the free chunks `from` to `to`, which follow it. The ends of
        the list are compared with the wrong chunks: the list stays right exactly if one chunk is
        taken or neither end of the list is. */
    method Absorb(start: nat, from: nat, to: nat, total: nat, ghost m: nat)
      requires Valid() && start in view.live && m > 0 && Room(view, start, m)
      requires from == view.free[Below(view.free, start)] && to == view.free[Below(view.free, start) + m - 1]
      requires total == Bytes(view.live[start] + m)
      modifies this
      ensures view == Grown(old(view), start, m) && view.Inv() && Tagged(mem, view.live)
      ensures PayloadsKept(old(mem), mem, old(view).live)
      ensures Valid() <==> EndsRight(old(view), start, m)
    {
      hide Heap.Inv, Tagged, PayloadsKept, Linked, Below, Room, EndsRight, Adjacent, Cut;
      ghost var h, m0, n := view, mem, Below(view.free, start);
      RoomAdjacent(h, start, m);
      var prev, next := Prev(mem, from), Next(mem, to);
      AbsorbNeighbours(h, m0, first, last, n, m);
      if prev != 0 { mem := mem[prev := next]; }
      if next != 0 { mem := mem[next + 8 := prev]; }
      assert mem == Bypass(m0, from, to);
      if first == to { first := next; }
      if last == from { last := prev; }
      mem := mem[start + 8 := total];
      view := Grown(h, start, m);
      Absorbing(h, m0, mem, old(first), old(last), first, last, start, m);
    }

    /** Copying `n` bytes, a multiple of the word size, between places that do not overlap. */
    method CopyWords(dst: nat, src: nat, n: nat)
      requires n % 8 == 0 && (src + n <= dst || dst + n <= src)
      modifies this`mem
      ensures Copied(old(mem), src, mem, dst, n)
      ensures forall x: nat :: !(dst <= x < dst + n) ==> Get(mem, x) == Get(old(mem), x)
    {
      var i := 0;
      while i < n
        invariant i <= n && i % 8 == 0
        invariant Copied(old(mem), src, mem, dst, i)
        invariant forall x: nat :: !(dst <= x < dst + i) ==> Get(mem, x) == Get(old(mem), x)
      {
        ghost var m := mem;
        mem := mem[dst + i := Get(mem, src + i)];
        forall x: nat | x < i + 8 && x % 8 == 0 ensures Cell(mem, dst, x) == Cell(old(mem), src, x) {
          if x != i { assert x < i && Cell(mem, dst, x) == Cell(m, dst, x); }
        }
        i := i + 8;
      }
    }

    /** Copying the payload of the block at `a` into that of a larger block at `b`. */
    method CopyBlock(a: nat, ghost b: nat, dst: nat)
      requires Valid() && a in view.live && b in view.live && 0 < view.live[a] < view.live[b] && dst == b + CHUNK_META
      requires a + CHUNK * view.live[a] <= b || b + CHUNK * view.live[b] <= a
      modifies this`mem
      ensures Valid() && Copied(old(mem), a + CHUNK_META, mem, dst, Bytes(view.live[a]))
              && OnlyPayload(old(mem), mem, b, view.live[b])
    {
      hide Heap.Inv, Tagged, Linked, Copied, OnlyPayload, Bytes;
      TagOf(mem, view.live, a);
      BytesWords(view.live[a]);
      CopyWords(dst, a + CHUNK_META, Prev(mem, a));
      CopyWrites(view, old(mem), mem, first, last, b, Bytes(view.live[a]));
    }

    /** A new block takes the place of the one at `start`; the copy faults if there is none. */
    method Move(start: nat, size: nat) returns (r: Outcome)
      requires Valid() && start in view.live && view.live[start] > 0 && Prev(mem, start) < size
      modifies this
      ensures !r.Panic? && Valid()
              && Moves(old(view), start, size) == (view, if r.Done? then Some(r.address - CHUNK_META) else None)
      ensures Contents(old(mem), mem, old(view).live, start, r)
    {
      hide Heap.Inv, Tagged, PayloadsKept, Linked, Alloc, HeapSpec.Free, Copied, OnlyPayload, Grew, Fits, Bytes;
      ghost var h, m0 := view, mem;
      TagOf(mem, h.live, start);
      var dst := AllocBytes(size);
      ghost var t, m1, b := view, mem, dst - CHUNK_META;
      ghost var grown := Allocating(h, size);
      BlockKept(m0, mem, h.live, start);
      if dst == 0 { return Fault; }
      MoveApart(h, t, start, b, size);
      CopyBlock(start, b, dst);
      ghost var m2 := mem;
      TagOf(mem, t.live, start);
      var panicked := FreeMem(start + CHUNK_META);
      FreeLive(t, start);
      Moved(h, t, view, m0, m1, m2, mem, start, b);
      return Done(dst);
    }

    /** `heap_realloc`: the result is as specified and keeps the contents; the heap stays valid
        exactly if the block moved, or kept its size, or grew without disturbing the ends. */
    method ReallocMem(p: nat, size: nat) returns (r: Outcome)
      requires Valid()
      requires p >= CHUNK_META && Next(mem, p - CHUNK_META) == MAGIC ==> p - CHUNK_META in view.live
      modifies this
      ensures r.Panic? <==> p < CHUNK_META || Next(old(mem), p - CHUNK_META) != MAGIC
      ensures r.Panic? ==> Valid() && view == old(view) && mem == old(mem)
      ensures !r.Panic? ==>
        var h, a := old(view), p - CHUNK_META;
        && h.live[a] > 0 && Realloc(h, a, size) == (view, if r.Done? then Some(r.address - CHUNK_META) else None)
        && view.Inv() && Tagged(mem, view.live) && Contents(old(mem), mem, h.live, a, r)
        && (Valid() <==> (Room(h, a, Missing(h.live[a], size)) ==> EndsRight(h, a, Missing(h.live[a], size))))
    {
      hide Heap.Inv, Tagged, PayloadsKept, Linked, Room, Grown, Missing, Below, Moves, EndsRight, Copied;
      if CHUNK_META > p || Next(mem, p - CHUNK_META) != MAGIC { return Panic; }
      var start := p - CHUNK_META;
      ghost var h, m0, k := view, mem, view.live[start];
      BlockFacts(h, m0, start);
      NothingMoved(m0, h.live);
      if Prev(mem, start) >= size {
        NoneMissing(h, start, size);
        BlockKept(m0, mem, h.live, start);
        return Done(p);
      }
      ghost var m := Missing(k, size);
      SomeMissing(k, size);
      var from, to, total := Claim(start, size);
      if size > total {
        r := Move(start, size);
        return;
      }
      Absorb(start, from, to, total, m);
      BlockKept(m0, mem, h.live, start);
      return Done(p);
    }
  }

  /** Other live blocks are as before, and so is what the block at `a` held, wherever it is now. */
  ghost predicate Contents(m: Mem, m': Mem, live: map<nat, nat>, a: nat, r: Outcome)
    requires a in live
  {
    && PayloadsKept(m, m', live - {a})
    && (r.Done? ==> Copied(m, a + CHUNK_META, m', r.address, Bytes(live[a])))
  }

  /** What comes of a reallocation: a block, a panic for an address that is not tagged, or the fault
      of copying to the null address when there is no memory. */
  datatype Outcome = Done(address: nat) | Panic | Fault
}
