/** Runs of the heap: any sequence of allocations, releases and reallocations. */
module HeapRuns {
  import opened Lists
  import opened HeapSpec
  import opened HeapLinks
  import opened HeapGrow
  import opened HeapWrites

  datatype Op = AllocOp(size: nat) | FreeOp(block: nat) | ReallocOp(block: nat, size: nat)

  /** Sizes are not zero, blocks are live, and no reallocation takes several chunks at an end of the
      free list. */
  predicate Allowed(h: Heap, op: Op) {
    match op
    case AllocOp(size) => size > 0
    case FreeOp(a) => a in h.live
    case ReallocOp(a, size) =>
      a in h.live && h.live[a] > 0 && (var m := Missing(h.live[a], size); Room(h, a, m) ==> EndsRight(h, a, m))
  }

  function Apply(h: Heap, op: Op): Heap
    requires Allowed(h, op)
  {
    match op
    case AllocOp(size) => Alloc(h, size).0
    case FreeOp(a) => Free(h, a)
    case ReallocOp(a, size) => Realloc(h, a, size).0
  }

  /** The run of `ops` from `h` ends in `t`. */
  ghost predicate Reaches(h: Heap, ops: seq<Op>, t: Heap)
    decreases |ops|
  {
    if ops == [] then t == h
    else Allowed(h, ops[0]) && Reaches(Apply(h, ops[0]), ops[1..], t)
  }

  /** Over every run the free list stays sorted and apart from the live blocks, and the chunks of the
      heap, free or live, are those it had and those of the pages it was given: none is lost. */
  lemma {:induction false} RunKeeps(h: Heap, ops: seq<Op>, t: Heap) returns (n: nat)
    requires h.Inv() && Reaches(h, ops, t)
    ensures t.Inv() && Grew(h, t, n)
    decreases |ops|
  {
    hide Heap.Inv, Grew, Alloc, Free, Realloc, Room, EndsRight, Missing;
    if ops == [] {
      n := 0;
      GrewNothing(h);
    } else {
      var u, m := Apply(h, ops[0]), 0;
      match ops[0] {
        case AllocOp(size) => m := Allocating(h, size);
        case FreeOp(a) => Releasing(h, a);
        case ReallocOp(a, size) => m := Reallocating(h, a, size);
      }
      n := RunKeeps(u, ops[1..], t);
      GrewMore(h, u, t, m, n);
      n := m + n;
    }
  }

  /** The chunk is part of the block. */
  predicate Covers(t: Heap, a: nat, c: nat)
    requires a in t.live
  {
    a <= c < a + CHUNK * t.live[a]
  }

  lemma OneBlock(t: Heap)
    requires t.Inv()
    ensures forall c: nat, a: nat :: c in t.free && a in t.live ==> !Covers(t, a, c)
    ensures forall c: nat, a: nat, b: nat :: a in t.live && b in t.live && Covers(t, a, c) && Covers(t, b, c) ==> a == b
  {
    hide Heap.PagesAhead, Sorted;
  }

  /** Starting empty: every chunk of a page the heap was given is free or in exactly one live block,
      and there are no other chunks. */
  lemma Partition(pages: seq<nat>, ops: seq<Op>, t: Heap) returns (n: nat)
    requires var h := Heap([], map[], pages); h.Inv() && Reaches(h, ops, t)
    ensures n <= |pages| && t.pages == pages[n..]
    ensures forall c: nat :: t.Has(c) <==> InPages(pages[..n], c)
    ensures forall c: nat, a: nat :: c in t.free && a in t.live ==> !Covers(t, a, c)
    ensures forall c: nat, a: nat, b: nat :: a in t.live && b in t.live && Covers(t, a, c) && Covers(t, b, c) ==> a == b
  {
    hide Heap.Inv, Sorted, Reaches, InPages;
    var h := Heap([], map[], pages);
    n := RunKeeps(h, ops, t);
    OneBlock(t);
  }

  /** The links of a free chunk never look like the tag of a live block, so that an address released
      twice is noticed. */
  lemma FreeIsUntagged(h: Heap, mem: Mem, first: nat, last: nat, c: nat)
    requires h.Inv() && Linked(mem, first, last, h.free) && c in h.free
    ensures Next(mem, c) != MAGIC && c !in h.live
  {
    hide Heap.PagesAhead, LinkedAt;
    var i :| 0 <= i < |h.free| && h.free[i] == c;
    LinkOf(mem, first, last, h.free, i);
    assert MAGIC % CHUNK != 0;
  }

  lemma FirstAlloc()
    ensures Alloc(Heap([], map[], [4096]), 16).0 == Heap(Run(4096, CHUNKS_PER_PAGE)[1..], map[4096 := 1], [])
  {
    hide Heap.Inv;
    var h1, s := Extend(Heap([], map[], [4096])), Run(4096, CHUNKS_PER_PAGE);
    assert h1 == Heap(s, map[], []) && s[0] == 4096;
    assert Search(h1, 0, None, 16) == Search(h1, 1, Some(0), 16) == (h1, Some((0, 1)));
    assert s[..0] + s[1..] == s[1..];
  }

  /** The first allocation of one chunk, on a page at 4096, and then its reallocation to 80 bytes:
      two chunks are wanted, the first of them is the first of the list, and the list is spoilt. */
  lemma ReallocSpoils()
    ensures var h := Heap([], map[], [4096]);
            var t := Apply(h, AllocOp(16));
            h.Inv() && t.live == map[4096 := 1] && Missing(1, 80) == 2 && Room(t, 4096, 2) && !EndsRight(t, 4096, 2)
  {
    hide Alloc;
    FirstAlloc();
    var t := Apply(Heap([], map[], [4096]), AllocOp(16));
    assert t.free[0] == 4128;
    assert Below(t.free, 4096) == 0;
    assert t.free[0..2] == Run(4128, 2);
  }

  /** What that does to the links: wherever the list was linked in memory, afterwards its first chunk is one
      that now belongs to the block, so that the links no longer run through the free chunks. */
  lemma ReallocUnlinks(m: Mem, first: nat, last: nat, m': Mem, first': nat, last': nat)
    requires var t := Apply(Heap([], map[], [4096]), AllocOp(16));
             && Tagged(m, t.live) && Linked(m, first, last, t.free) && |t.free| == 127
             && m' == Bypass(m, t.free[0], t.free[1])[4096 + 8 := Bytes(3)]
             && first' == (if first == t.free[1] then Next(m, t.free[1]) else first)
             && last' == (if last == t.free[0] then Prev(m, t.free[0]) else last)
    ensures var t := Apply(Heap([], map[], [4096]), AllocOp(16));
            && 4096 in t.live && Room(t, 4096, 2)
            && !Linked(m', first', last', Grown(t, 4096, 2).free)
            && first' == 4128 && 4096 <= first' < 4096 + CHUNK * Grown(t, 4096, 2).live[4096]
  {
    hide Alloc, Linked, Tagged, Bypass, Grown;
    FirstAlloc();
    ReallocSpoils();
    var h := Heap([], map[], [4096]);
    var t := Apply(h, AllocOp(16));
    var n := Allocating(h, 16);
    assert Below(t.free, 4096) == 0 by { assert t.free[0] == 4128; }
    Absorbing(t, m, m', first, last, first', last', 4096, 2);
    ListEnds(m, first, last, t);
    assert t.free[1] == 4160;
    GrownLive(t, 4096, 2);
  }

  lemma GrownLive(h: Heap, a: nat, m: nat)
    requires a in h.live && Room(h, a, m)
    ensures Grown(h, a, m).live[a] == h.live[a] + m
  {
  }
}
