/** Growing an allocation (`heap_realloc`) as a change of the heap's value. */
module HeapGrow {
  import opened Lists
  import opened HeapSpec
  import opened HeapLinks

  /** The chunks that a block of `k` chunks lacks to hold `size` bytes. */
  function Missing(k: nat, size: nat): (m: nat)
    requires k > 0
    ensures Bytes(k + m) >= size && (m > 0 ==> Bytes(k + m - 1) < size)
  {
    if Bytes(k) >= size then 0 else (size - Bytes(k) + CHUNK - 1) / CHUNK
  }

  /** The `m` chunks right after the block at `a` are free. */
  predicate Room(h: Heap, a: nat, m: nat)
    requires a in h.live
  {
    var n := Below(h.free, a);
    n + m <= |h.free| && h.free[n..n + m] == Run(a + CHUNK * h.live[a], m)
  }

  /** The block at `a` with the `m` chunks after it. */
  function Grown(h: Heap, a: nat, m: nat): Heap
    requires a in h.live && Room(h, a, m)
  {
    var n := Below(h.free, a);
    h.(free := Cut(h.free, n, n + m), live := h.live[a := h.live[a] + m])
  }

  /** The block at `c`, right after the one at `a`, becomes part of it. */
  function Merge(h: Heap, a: nat, c: nat): Heap
    requires a in h.live && c in h.live
  {
    h.(live := (h.live - {c})[a := h.live[a] + h.live[c]])
  }

  lemma Merging(h: Heap, a: nat, c: nat)
    requires h.Inv() && a in h.live && c in h.live && c == a + CHUNK * h.live[a] && h.live[a] > 0
    ensures Merge(h, a, c).Inv()
  {
    hide Sorted;
    var t := Merge(h, a, c);
    MergingApart(h, a, c);
    forall i, b | 0 <= i < |t.free| && b in t.live ensures !(b <= t.free[i] < b + CHUNK * t.live[b]) {
      assert b in h.live;
      assert !(b <= h.free[i] < b + CHUNK * h.live[b]) && !(c <= h.free[i] < c + CHUNK * h.live[c]);
    }
  }

  lemma MergingApart(h: Heap, a: nat, c: nat)
    requires h.LiveApart() && a in h.live && c in h.live && c == a + CHUNK * h.live[a] && h.live[a] > 0
    ensures Merge(h, a, c).LiveApart()
  {
    var t := Merge(h, a, c);
    forall b, d | b in t.live && d in t.live && b < d ensures b + CHUNK * t.live[b] <= d {
      assert b in h.live && d in h.live && d != c;
      if b == a { assert c < d; }
    }
  }

  lemma MergingHas(h: Heap, a: nat, c: nat, x: nat)
    requires a in h.live && c in h.live && c == a + CHUNK * h.live[a] && a != c
    ensures Merge(h, a, c).Has(x) <==> h.Has(x)
  {
    var t := Merge(h, a, c);
    if h.Has(x) && x !in h.free {
      var b :| b in h.live && b <= x < b + CHUNK * h.live[b];
      assert a in t.live;
      if b == c { assert a <= x < a + CHUNK * t.live[a]; }
      assert b in t.live || b == c;
    }
    if t.Has(x) && x !in t.free {
      var b :| b in t.live && b <= x < b + CHUNK * t.live[b];
      assert b in h.live;
      if b == a { assert x < c || c <= x < c + CHUNK * h.live[c]; }
    }
  }

  /** The free chunks after a block are adjacent ones. */
  lemma RoomAdjacent(h: Heap, a: nat, m: nat)
    requires a in h.live && Room(h, a, m) && m > 0
    ensures var n := Below(h.free, a);
            && n + m <= |h.free| && Adjacent(h.free, n, n + m)
            && h.free[n] == a + CHUNK * h.live[a]
  {
    hide Below;
    var n, run := Below(h.free, a), Run(a + CHUNK * h.live[a], m);
    assert h.free[n..n + m][0] == run[0];
    forall i | n <= i < n + m ensures h.free[i] == h.free[n] + CHUNK * (i - n) {
      assert h.free[n..n + m][i - n] == run[i - n];
    }
  }

  /** Growing in place keeps the invariant and every chunk. */
  lemma Growing(h: Heap, a: nat, m: nat)
    requires h.Inv() && a in h.live && Room(h, a, m) && m > 0
    ensures Grown(h, a, m).Inv() && Grew(h, Grown(h, a, m), 0)
  {
    hide Heap.Inv, Below, Adjacent, Heap.Has;
    var n := Below(h.free, a);
    RoomAdjacent(h, a, m);
    Taking(h, n, n + m);
    var t, c := Take(h, n, n + m), h.free[n];
    LiveBlock(h, a);
    assert t.live[a] == h.live[a];
    Merging(t, a, c);
    assert Merge(t, a, c) == Grown(h, a, m) by {
      assert (h.live[c := m] - {c})[a := h.live[a] + m] == h.live[a := h.live[a] + m];
    }
    forall x: nat ensures Grown(h, a, m).Has(x) <==> h.Has(x) {
      TakingHas(h, n, n + m, x);
      MergingHas(t, a, c, x);
    }
    assert h.pages[0..] == h.pages;
    assert forall x: nat :: !InPages(h.pages[..0], x);
  }

  lemma LiveBlock(h: Heap, a: nat)
    requires h.Inv() && a in h.live
    ensures h.live[a] > 0 && a > 0 && a % CHUNK == 0
  {
  }

  /** `heap_realloc` of the block at `a`: unchanged if large enough, grown in place if there is room,
      else a new block takes its place. No result if there is no memory for the new block. */
  function Realloc(h: Heap, a: nat, size: nat): (r: (Heap, Option<nat>))
    requires a in h.live && h.live[a] > 0
  {
    var m := Missing(h.live[a], size);
    if m == 0 then (h, Some(a))
    else if Room(h, a, m) then (Grown(h, a, m), Some(a))
    else Moves(h, a, size)
  }

  /** Allocating a new block, then releasing the one at `a`. */
  function Moves(h: Heap, a: nat, size: nat): (r: (Heap, Option<nat>))
    requires a in h.live && size > 0
  {
    var (t, b) := Alloc(h, size);
    if b == None || a !in t.live then (t, None) else (Free(t, a), b)
  }

  /** Reallocation keeps the invariant and every chunk, and changes no other allocation. The result
      holds `size` bytes; a block that moved is no longer live. */
  lemma Reallocating(h: Heap, a: nat, size: nat) returns (n: nat)
    requires h.Inv() && a in h.live && h.live[a] > 0
    ensures var (t, r) := Realloc(h, a, size);
            && t.Inv() && Grew(h, t, n)
            && match r
               case None => t.live == h.live && t.pages == []
               case Some(b) =>
                 && b in t.live && Bytes(t.live[b]) >= size && t.live[b] >= h.live[a]
                 && (b == a || b !in h.live) && t.live - {b} == h.live - {a}
  {
    hide Heap.Inv, Grew, Below, Alloc;
    var m := Missing(h.live[a], size);
    GrewNothing(h);
    n := 0;
    if m > 0 && Room(h, a, m) {
      Growing(h, a, m);
    } else if m > 0 {
      n := Allocating(h, size);
      var (t, b) := Alloc(h, size);
      if b.Some? {
        Releasing(t, a);
        GrewMore(h, t, Free(t, a), n, 0);
      }
    }
  }

  /** The chunks right after the block. */
  ghost predicate NextFree(h: Heap, a: nat, m: nat)
    requires a in h.live
  {
    forall c :: c in Run(a + CHUNK * h.live[a], m) ==> c in h.free
  }

  /** There is room exactly if each of them is free. */
  lemma RoomExact(h: Heap, a: nat, m: nat)
    requires h.Inv() && a in h.live && h.live[a] > 0
    ensures Room(h, a, m) <==> NextFree(h, a, m)
  {
    hide Below, Heap.Inv;
    var n, run := Below(h.free, a), Run(a + CHUNK * h.live[a], m);
    if Room(h, a, m) {
      forall c | c in run ensures c in h.free { assert c in h.free[n..n + m]; }
    }
    if NextFree(h, a, m) { RoomPlace(h, a, m); }
  }

  /** Free chunks that follow a block are at its place in the sorted list, without a gap. */
  lemma RoomPlace(h: Heap, a: nat, m: nat)
    requires h.Inv() && a in h.live && h.live[a] > 0 && NextFree(h, a, m)
    ensures Room(h, a, m)
  {
    hide Below, Heap.PagesAhead, Heap.LiveApart, Sorted;
    var n, b := Below(h.free, a), a + CHUNK * h.live[a];
    BelowPlace(h.free, a);
    forall j | n <= j < |h.free| ensures h.free[j] >= b { assert !(a <= h.free[j] < a + CHUNK * h.live[a]); }
    NoGap(h.free, n, b, m);
    assert h.free[n..n + m] == Run(b, m);
  }

  lemma {:induction false} NoGap(s: seq<nat>, n: nat, b: nat, m: nat)
    requires Sorted(s) && n <= |s| && forall c :: c in Run(b, m) ==> c in s
    requires (forall j :: 0 <= j < n ==> s[j] < b) && (forall j :: n <= j < |s| ==> s[j] >= b)
    ensures n + m <= |s| && forall j :: n <= j < n + m ==> s[j] == b + CHUNK * (j - n)
    decreases m
  {
    hide Sorted;
    if m > 0 {
      var run := Run(b, m);
      assert Run(b, m - 1) == run[..m - 1];
      NoGap(s, n, b, m - 1);
      assert run[m - 1] in s;
      InPlace(s, n, b, m);
    }
  }

  /** If the first of them are in place, so is the next. */
  lemma InPlace(s: seq<nat>, n: nat, b: nat, m: nat)
    requires Sorted(s) && m > 0 && n + m - 1 <= |s| && b + CHUNK * (m - 1) in s
    requires (forall j :: 0 <= j < n ==> s[j] < b) && (forall j :: n <= j < |s| ==> s[j] >= b)
    requires forall j :: n <= j < n + m - 1 ==> s[j] == b + CHUNK * (j - n)
    ensures n + m <= |s| && s[n + m - 1] == b + CHUNK * (m - 1)
  {
    var i :| 0 <= i < |s| && s[i] == b + CHUNK * (m - 1);
    assert i >= n + m - 1;
    if m > 1 { assert s[n + m - 2] < s[n + m - 1]; }
    SameChunk(s[i], s[n + m - 1]);
  }

  lemma SameChunk(c: nat, d: nat)
    requires c % CHUNK == 0 && d % CHUNK == 0 && c - CHUNK < d <= c
    ensures c == d
  {
  }

  /** What reallocation answers: the same block if it is large enough; the same block, longer by the least
      number of chunks, if all of those are free; else what an allocation answers, with the old block
      released if there is one. */
  lemma ReallocExact(h: Heap, a: nat, size: nat) returns (m: nat)
    requires h.Inv() && a in h.live && h.live[a] > 0
    ensures var (k, (t, r)) := (h.live[a], Realloc(h, a, size));
            if Bytes(k) >= size then t == h && r == Some(a)
            else if NextFree(h, a, m) then
              && Fits(k + m, size) && r == Some(a) && t.live == h.live[a := k + m] && t.pages == h.pages
              && forall c: nat :: c in t.free <==> c in h.free && c !in Run(a + CHUNK * k, m)
            else
              && Fits(k + m, size) && r == Alloc(h, size).1
              && if r == None then t == Alloc(h, size).0
                 else a in Alloc(h, size).0.live && t == Free(Alloc(h, size).0, a)
  {
    hide Alloc, Heap.Inv, Room, NextFree;
    m := Missing(h.live[a], size);
    if Bytes(h.live[a]) < size {
      RoomExact(h, a, m);
      if Room(h, a, m) {
        GrownFree(h, a, m);
      } else {
        var n := Allocating(h, size);
      }
    }
  }

  lemma GrownFree(h: Heap, a: nat, m: nat)
    requires h.Inv() && a in h.live && Room(h, a, m)
    ensures forall c: nat :: c in Grown(h, a, m).free <==> c in h.free && c !in Run(a + CHUNK * h.live[a], m)
  {
    hide Below, Heap.LiveApart, Heap.FreeApart, Heap.PagesAhead, Sorted;
    var n := Below(h.free, a);
    SortedDistinct(h.free);
    forall c: nat ensures c in Cut(h.free, n, n + m) <==> c in h.free && c !in h.free[n..n + m] {
      CutHas(h.free, n, m, c);
    }
  }

  lemma SortedDistinct(s: seq<nat>)
    requires Sorted(s)
    ensures Distinct(s)
  {
  }

  lemma CutHas(s: seq<nat>, n: nat, m: nat, c: nat)
    requires Distinct(s) && n + m <= |s|
    ensures c in Cut(s, n, n + m) <==> c in s && c !in s[n..n + m]
  {
    var t := Cut(s, n, n + m);
    if c in t {
      var i :| 0 <= i < |t| && t[i] == c;
      var j := if i < n then i else i + m;
      assert s[j] == c;
    }
    if c in s && c !in s[n..n + m] {
      var i :| 0 <= i < |s| && s[i] == c;
      assert t[if i < n then i else i - m] == c;
    }
  }
}
