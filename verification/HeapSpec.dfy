/** The chunk heap (kernel/mm/heap.c) as a value: the addresses on its free list in list order, its
    live allocations, and the pages that it may still be given. A chunk is 32 bytes: 16 bytes of
    metadata and 16 bytes of data; an allocation is a run of adjacent chunks whose metadata, except
    for the first chunk's, is handed out too. */
module HeapSpec {
  import opened Lists

  const CHUNK := 32
  const CHUNK_META := 16
  const CHUNK_DATA := 16
  const PAGE_SIZE := 4096
  const CHUNKS_PER_PAGE := 128

  /** `live` maps the address of the first chunk of an allocation to its number of chunks. */
  datatype Heap = Heap(free: seq<nat>, live: map<nat, nat>, pages: seq<nat>) {
    /** The free list is strictly ordered by address; free chunks and allocations do not overlap;
        pages to come lie above everything and ascend. */
    ghost predicate Inv() {
      Sorted(free) && LiveApart() && FreeApart() && PagesAhead()
    }

    ghost predicate LiveApart() {
      && (forall a :: a in live ==> a > 0 && a % CHUNK == 0 && live[a] > 0)
      && (forall a, b :: a in live && b in live && a < b ==> a + CHUNK * live[a] <= b)
    }

    ghost predicate FreeApart() {
      forall i, a :: 0 <= i < |free| && a in live ==> !(a <= free[i] < a + CHUNK * live[a])
    }

    ghost predicate PagesAhead() {
      && (forall i :: 0 <= i < |pages| ==> pages[i] > 0 && pages[i] % PAGE_SIZE == 0)
      && (forall i, j :: 0 <= i < j < |pages| ==> pages[i] + PAGE_SIZE <= pages[j])
      && (forall i, j :: 0 <= i < |pages| && 0 <= j < |free| ==> free[j] + CHUNK <= pages[i])
      && (forall i, a :: 0 <= i < |pages| && a in live ==> a + CHUNK * live[a] <= pages[i])
    }

    /** The chunk belongs to the heap: it is free or part of an allocation. */
    ghost predicate Has(c: nat) {
      c % CHUNK == 0 && (c in free || exists a :: a in live && a <= c < a + CHUNK * live[a])
    }
  }

  ghost predicate Sorted(s: seq<nat>) {
    && (forall i :: 0 <= i < |s| ==> s[i] > 0 && s[i] % CHUNK == 0)
    && (forall i, j :: 0 <= i < j < |s| ==> s[i] < s[j])
  }

  /** `k` adjacent chunks from `a` on. */
  function Run(a: nat, k: nat): (s: seq<nat>)
    ensures |s| == k && forall i :: 0 <= i < k ==> s[i] == a + CHUNK * i
  {
    seq(k, i requires 0 <= i < k => a + CHUNK * i)
  }

  /** Usable bytes of a run of `k` chunks. */
  function Bytes(k: nat): nat { if k == 0 then 0 else CHUNK_DATA + CHUNK * (k - 1) }

  /** `__heap_extend`: one more page of chunks at the tail. */
  function Extend(h: Heap): Heap {
    if h.pages == [] then h
    else h.(free := h.free + Run(h.pages[0], CHUNKS_PER_PAGE), pages := h.pages[1..])
  }

  /** Where the run that chunk `i` continues or starts begins. */
  function Collect(s: seq<nat>, i: nat, from: Option<nat>): (r: Option<nat>)
    requires i < |s| && (from.Some? ==> from.value < i)
    ensures r.Some? ==> r.value <= i
  {
    match from
    case None => Some(i)
    case Some(f) => if f < i && s[i - 1] + CHUNK == s[i] then from else None
  }

  /** The search of `heap_alloc`, at list position `i`. `from` is the position of the first chunk of
      the run being collected, if any. A chunk that does not continue the run is not tried as the
      start of the next one. The search looks one chunk ahead, and extends the heap to do so. */
  function Search(h: Heap, i: nat, from: Option<nat>, size: nat): (r: (Heap, Option<(nat, nat)>))
    requires i < |h.free| && (from.Some? ==> from.value < i)
    decreases |h.pages|, |h.free| - i
  {
    if from.Some? && Bytes(i - from.value) >= size then (h, Some((from.value, i)))
    else
      var from' := Collect(h.free, i, from);
      if i + 1 < |h.free| then Search(h, i + 1, from', size)
      else if h.pages == [] then (h, None)
      else Search(Extend(h), i + 1, from', size)
  }

  /** `heap_alloc`: the heap afterwards and the address of the first chunk, if the search succeeds. */
  function Alloc(h: Heap, size: nat): (r: (Heap, Option<nat>))
    requires size > 0
  {
    var h1 := if h.free == [] then Extend(h) else h;
    if h1.free == [] then (h1, None)
    else
      var (h2, found) := Search(h1, 0, None, size);
      match found
      case None => (h2, None)
      case Some((from, to)) =>
        if from < to < |h2.free| then
          var a := h2.free[from];
          (h2.(free := h2.free[..from] + h2.free[to..], live := h2.live[a := to - from]), Some(a))
        else (h2, None)
  }

  /** Number of chunks below address `a`. */
  function Below(s: seq<nat>, a: nat): (n: nat)
    ensures n <= |s|
  {
    if s == [] || s[0] >= a then 0 else 1 + Below(s[1..], a)
  }

  /** `heap_free` of the allocation whose first chunk is `a`. */
  function Free(h: Heap, a: nat): Heap
    requires a in h.live
  {
    var n := Below(h.free, a);
    h.(free := h.free[..n] + Run(a, h.live[a]) + h.free[n..], live := h.live - {a})
  }

  // ---- what an extension keeps

  /** The chunk lies in one of the pages. */
  ghost predicate InPages(ps: seq<nat>, c: nat) {
    c % CHUNK == 0 && exists i :: 0 <= i < |ps| && ps[i] <= c < ps[i] + PAGE_SIZE
  }

  /** `t` is `h` with its first `n` pages added, and no chunk lost. */
  ghost predicate Grew(h: Heap, t: Heap, n: nat) {
    && n <= |h.pages| && t.pages == h.pages[n..]
    && (forall c: nat :: t.Has(c) <==> h.Has(c) || InPages(h.pages[..n], c))
  }

  lemma Extending(h: Heap)
    requires h.Inv() && h.pages != []
    ensures var t := Extend(h); t.Inv() && h.free <= t.free && Grew(h, t, 1) && t.live == h.live
  {
    hide Heap.Has, InPages, Run;
    var p, t := h.pages[0], Extend(h);
    PageOfChunks(p);
    ExtendSorted(h);
    ExtendApart(h);
    forall c: nat ensures t.Has(c) <==> h.Has(c) || InPages(h.pages[..1], c) { ExtendHas(h, c); }
  }

  /** A page begins with a chunk. */
  lemma PageOfChunks(p: nat)
    requires p % PAGE_SIZE == 0
    ensures p % CHUNK == 0
  {
    assert p == CHUNK * (CHUNKS_PER_PAGE * (p / PAGE_SIZE));
  }

  lemma RunAligned(a: nat, i: nat)
    requires a % CHUNK == 0
    ensures (a + CHUNK * i) % CHUNK == 0
  {
  }

  lemma ExtendSorted(h: Heap)
    requires Sorted(h.free) && h.PagesAhead() && h.pages != [] && h.pages[0] % CHUNK == 0
    ensures Sorted(Extend(h).free)
  {
    hide Run;
    var p, s, t := h.pages[0], h.free, Extend(h).free;
    var run := Run(p, CHUNKS_PER_PAGE);
    assert forall j :: 0 <= j < |s| ==> s[j] < p;
    forall i | 0 <= i < |t| ensures t[i] > 0 && t[i] % CHUNK == 0 {
      if i >= |s| { RunAligned(p, i - |s|); }
    }
    forall i, j | 0 <= i < j < |t| ensures t[i] < t[j] {
      if j < |s| {
        assert s[i] < s[j];
      } else {
        assert t[j] == run[j - |s|] >= p;
        if i >= |s| { assert t[i] == run[i - |s|]; }
      }
    }
  }

  lemma ExtendApart(h: Heap)
    requires h.LiveApart() && h.FreeApart() && h.PagesAhead() && h.pages != []
    ensures Extend(h).LiveApart() && Extend(h).FreeApart() && Extend(h).PagesAhead()
  {
    hide Run;
    var p, s, t := h.pages[0], h.free, Extend(h);
    var run := Run(p, CHUNKS_PER_PAGE);
    assert forall i :: 0 <= i < |t.pages| ==> t.pages[i] == h.pages[i + 1];
    forall i | 0 <= i < |t.free| ensures t.free[i] == if i < |s| then s[i] else p + CHUNK * (i - |s|) {
      if i >= |s| { assert t.free[i] == run[i - |s|]; }
    }
    forall i, a | 0 <= i < |t.free| && a in t.live ensures !(a <= t.free[i] < a + CHUNK * t.live[a]) {
      assert a + CHUNK * h.live[a] <= p;
    }
    forall i, j | 0 <= i < |t.pages| && 0 <= j < |t.free| ensures t.free[j] + CHUNK <= t.pages[i] {
      assert p + PAGE_SIZE <= h.pages[i + 1];
    }
  }

  lemma ExtendHas(h: Heap, c: nat)
    requires h.pages != [] && h.pages[0] % CHUNK == 0
    ensures Extend(h).Has(c) <==> h.Has(c) || InPages(h.pages[..1], c)
  {
    var p, t := h.pages[0], Extend(h);
    RunHas(p, CHUNKS_PER_PAGE, c);
    assert h.pages[..1][0] == p;
    assert c in t.free <==> c in h.free || c in Run(p, CHUNKS_PER_PAGE);
  }

  lemma GrewMore(h: Heap, t: Heap, u: Heap, m: nat, n: nat)
    requires Grew(h, t, m) && Grew(t, u, n)
    ensures Grew(h, u, m + n)
  {
    var ps := h.pages[..m + n];
    assert u.pages == h.pages[m + n..];
    forall c: nat ensures InPages(ps, c) <==> InPages(h.pages[..m], c) || InPages(t.pages[..n], c) {
      if InPages(ps, c) {
        var i :| 0 <= i < |ps| && ps[i] <= c < ps[i] + PAGE_SIZE;
        if i < m { assert h.pages[..m][i] == ps[i]; } else { assert t.pages[..n][i - m] == ps[i]; }
      }
      if InPages(h.pages[..m], c) {
        var i :| 0 <= i < m && h.pages[..m][i] <= c < h.pages[..m][i] + PAGE_SIZE;
        assert ps[i] == h.pages[..m][i];
      }
      if InPages(t.pages[..n], c) {
        var i :| 0 <= i < n && t.pages[..n][i] <= c < t.pages[..n][i] + PAGE_SIZE;
        assert ps[m + i] == t.pages[..n][i];
      }
    }
  }

  lemma GrewNothing(h: Heap)
    ensures Grew(h, h, 0)
  {
    assert h.pages[0..] == h.pages;
  }

  // ---- what the search finds

  /** Positions `[from, to)` of the free list hold adjacent chunks. */
  ghost predicate Adjacent(s: seq<nat>, from: nat, to: nat) {
    from <= to <= |s| && forall i :: from <= i < to ==> s[i] == s[from] + CHUNK * (i - from)
  }

  /** The run collected before position `i`, not yet long enough without its last chunk. */
  ghost predicate Collected(s: seq<nat>, i: nat, from: Option<nat>, size: nat) {
    from.Some? ==> from.value < i && Adjacent(s, from.value, i) && Bytes(i - from.value - 1) < size
  }

  lemma Collecting(s: seq<nat>, i: nat, from: Option<nat>, size: nat, t: seq<nat>)
    requires size > 0 && i < |s| && Collected(s, i, from, size) && s <= t
    requires from.Some? ==> Bytes(i - from.value) < size
    ensures Collected(t, i + 1, Collect(s, i, from), size)
  {
    if from.Some? && s[i - 1] + CHUNK == s[i] {
      assert s[i] == s[from.value] + CHUNK * (i - from.value);
    }
  }

  /** What the search returned: a run of adjacent chunks that is long enough and not longer than
      needed, with at least one chunk after it. */
  ghost predicate FoundRun(s: seq<nat>, found: Option<(nat, nat)>, size: nat) {
    match found
    case None => true
    case Some((f, to)) =>
      f < to < |s| && Adjacent(s, f, to) && Bytes(to - f) >= size && Bytes(to - f - 1) < size
  }

  /** The search finds such a run, or fails after adding every page there was. */
  lemma {:induction false} Searching(h: Heap, i: nat, from: Option<nat>, size: nat) returns (n: nat)
    requires h.Inv() && i < |h.free| && size > 0 && Collected(h.free, i, from, size)
    ensures var (t, found) := Search(h, i, from, size);
            && t.Inv() && h.free <= t.free && t.live == h.live && Grew(h, t, n)
            && FoundRun(t.free, found, size) && (found == None ==> t.pages == [])
    decreases |h.pages|, |h.free| - i
  {
    hide Heap.Inv, Grew, Adjacent;
    GrewNothing(h);
    if from.Some? && Bytes(i - from.value) >= size {
      n := 0;
    } else {
      var from' := Collect(h.free, i, from);
      if i + 1 < |h.free| {
        Collecting(h.free, i, from, size, h.free);
        n := Searching(h, i + 1, from', size);
      } else if h.pages == [] {
        n := 0;
      } else {
        Extending(h);
        var t := Extend(h);
        Collecting(h.free, i, from, size, t.free);
        var m := Searching(t, i + 1, from', size);
        n := m + 1;
        GrewMore(h, t, Search(h, i, from, size).0, 1, m);
      }
    }
  }

  // ---- what allocation and release keep

  function Take(h: Heap, f: nat, to: nat): Heap
    requires f < to <= |h.free|
  {
    h.(free := h.free[..f] + h.free[to..], live := h.live[h.free[f] := to - f])
  }

  /** A chunk lies in a run exactly if it is in its address range. */
  lemma RunHas(a: nat, k: nat, c: nat)
    requires a % CHUNK == 0
    ensures c in Run(a, k) <==> c % CHUNK == 0 && a <= c < a + CHUNK * k
  {
    if c % CHUNK == 0 && a <= c < a + CHUNK * k { assert Run(a, k)[(c - a) / CHUNK] == c; }
  }

  /** Adjacent free chunks lie before or after any allocation. */
  lemma RunApart(h: Heap, f: nat, to: nat, b: nat)
    requires Sorted(h.free) && h.LiveApart() && h.FreeApart() && f < to <= |h.free| && Adjacent(h.free, f, to)
             && b in h.live
    ensures b + CHUNK * h.live[b] <= h.free[f] || h.free[f] + CHUNK * (to - f) <= b
  {
    var a := h.free[f];
    RunHas(a, to - f, b);
    var run := Run(a, to - f);
    forall i | 0 <= i < |run| ensures run[i] != b {
      assert !(b <= h.free[f + i] < b + CHUNK * h.live[b]);
    }
    assert !(b <= h.free[f] < b + CHUNK * h.live[b]);
  }

  /** Taking positions `[f, to)` off the free list and making them an allocation. */
  lemma Taking(h: Heap, f: nat, to: nat)
    requires h.Inv() && f < to <= |h.free| && Adjacent(h.free, f, to)
    ensures Take(h, f, to).Inv() && h.free[f] !in h.live
    ensures h.free[f..to] == Run(h.free[f], to - f)
  {
    hide Heap.PagesAhead, Take;
    assert h.free[to - 1] == h.free[f] + CHUNK * (to - f - 1);
    if to < |h.free| {
      assert h.free[to - 1] < h.free[to] && h.free[to] % CHUNK == 0 && h.free[to - 1] % CHUNK == 0;
    }
    forall b | b in h.live ensures b + CHUNK * h.live[b] <= h.free[f] || h.free[f] + CHUNK * (to - f) <= b {
      RunApart(h, f, to, b);
    }
    TakingApart(h, f, to);
  }

  /** A run of the free list that is apart from the allocations. */
  ghost predicate TakeReady(h: Heap, f: nat, to: nat) {
    && h.Inv() && f < to <= |h.free| && h.free[to - 1] == h.free[f] + CHUNK * (to - f - 1)
    && (to < |h.free| ==> h.free[to] >= h.free[f] + CHUNK * (to - f))
    && forall b :: b in h.live ==> b + CHUNK * h.live[b] <= h.free[f] || h.free[f] + CHUNK * (to - f) <= b
  }

  lemma TakingApart(h: Heap, f: nat, to: nat)
    requires TakeReady(h, f, to)
    ensures Take(h, f, to).Inv()
  {
    TakingFree(h, f, to);
    TakingRest(h, f, to);
  }

  lemma TakingFree(h: Heap, f: nat, to: nat)
    requires TakeReady(h, f, to)
    ensures Sorted(Take(h, f, to).free) && Take(h, f, to).FreeApart()
  {
    hide Heap.PagesAhead, Heap.LiveApart;
    var a, k, t := h.free[f], to - f, Take(h, f, to);
    assert forall i :: 0 <= i < f ==> t.free[i] == h.free[i];
    assert forall i :: f <= i < |t.free| ==> t.free[i] == h.free[i + k];
    forall i | 0 <= i < |t.free| ensures !(a <= t.free[i] < a + CHUNK * k) {
      if i > f { assert h.free[to] < h.free[i + k]; }
    }
  }

  lemma TakingRest(h: Heap, f: nat, to: nat)
    requires TakeReady(h, f, to)
    ensures Take(h, f, to).LiveApart() && Take(h, f, to).PagesAhead()
  {
    hide Heap.FreeApart;
    var k, t := to - f, Take(h, f, to);
    assert forall i :: 0 <= i < f ==> t.free[i] == h.free[i];
    assert forall i :: f <= i < |t.free| ==> t.free[i] == h.free[i + k];
  }

  lemma TakingHas(h: Heap, f: nat, to: nat, c: nat)
    requires h.Inv() && f < to <= |h.free| && Adjacent(h.free, f, to) && h.free[f] !in h.live
    requires h.free[f..to] == Run(h.free[f], to - f)
    ensures Take(h, f, to).Has(c) <==> h.Has(c)
  {
    var a, k := h.free[f], to - f;
    var t := Take(h, f, to);
    RunHas(a, k, c);
    assert h.free == h.free[..f] + h.free[f..to] + h.free[to..];
    assert c in h.free <==> c in t.free || c in Run(a, k);
    if h.Has(c) && c !in h.free {
      var b :| b in h.live && b <= c < b + CHUNK * h.live[b];
      assert b in t.live && t.live[b] == h.live[b];
    }
    if t.Has(c) && c !in t.free {
      var b :| b in t.live && b <= c < b + CHUNK * t.live[b];
      assert b == a || (b in h.live && h.live[b] == t.live[b]);
    }
    if c in Run(a, k) { assert a in t.live && a <= c < a + CHUNK * t.live[a]; }
  }

  /** The number of chunks that a request takes: the least that holds `size` bytes. */
  ghost predicate Fits(k: nat, size: nat) {
    k > 0 && Bytes(k) >= size && Bytes(k - 1) < size
  }

  /** Allocation: the invariant and every chunk of the heap are kept, nothing else that is live is
      touched, and the block returned is new, long enough and no longer than needed. It fails only
      after every page that was to be had was added. */
  lemma Allocating(h: Heap, size: nat) returns (n: nat)
    requires h.Inv() && size > 0
    ensures var (t, a) := Alloc(h, size);
            && t.Inv() && Grew(h, t, n)
            && match a
               case None => t.live == h.live && t.pages == []
               case Some(a) => a !in h.live && a in t.live && t.live == h.live[a := t.live[a]] && Fits(t.live[a], size)
  {
    hide Heap.Inv, Grew, Adjacent, Heap.Has;
    GrewNothing(h);
    n := 0;
    var h1 := if h.free == [] then Extend(h) else h;
    if h.free == [] && h.pages != [] {
      Extending(h);
      n := 1;
    }
    if h1.free != [] {
      var m := Searching(h1, 0, None, size);
      var (h2, found) := Search(h1, 0, None, size);
      GrewMore(h, h1, h2, n, m);
      n := n + m;
      if found.Some? {
        var (f, to) := found.value;
        Taking(h2, f, to);
        GrewTaking(h, h2, n, f, to);
      }
    }
  }

  lemma GrewTaking(h: Heap, t: Heap, n: nat, f: nat, to: nat)
    requires Grew(h, t, n) && t.Inv() && f < to < |t.free| && Adjacent(t.free, f, to) && t.free[f] !in t.live
    requires t.free[f..to] == Run(t.free[f], to - f)
    ensures Grew(h, Take(t, f, to), n)
  {
    forall c: nat ensures Take(t, f, to).Has(c) <==> t.Has(c) { TakingHas(t, f, to, c); }
  }

  // ---- releasing

  /** `Below` finds the place of an address in the sorted list. */
  lemma {:induction false} BelowPlace(s: seq<nat>, a: nat)
    requires Sorted(s)
    ensures var n := Below(s, a); (forall i :: 0 <= i < n ==> s[i] < a) && (forall i :: n <= i < |s| ==> s[i] >= a)
  {
    if s != [] && s[0] < a {
      assert Sorted(s[1..]);
      BelowPlace(s[1..], a);
      var n := Below(s[1..], a);
      assert forall i :: 1 <= i < |s| ==> s[i] == s[1..][i - 1];
    }
  }

  /** Releasing an allocation keeps the invariant and every chunk: exactly the chunks of the block become
      free, and exactly that block is no longer live. */
  lemma Releasing(h: Heap, a: nat)
    requires h.Inv() && a in h.live
    ensures Free(h, a).Inv() && Grew(h, Free(h, a), 0) && Free(h, a).live == h.live - {a}
    ensures forall c: nat :: c in Free(h, a).free <==> c in h.free || c in Run(a, h.live[a])
  {
    forall c: nat ensures c in Free(h, a).free <==> c in h.free || c in Run(a, h.live[a]) { ReleasedHere(h, a, c); }
    var n, k := Below(h.free, a), h.live[a];
    var t := Free(h, a);
    BelowPlace(h.free, a);
    ReleasingSorted(h, a, n);
    ReleasingApart(h, a);
    forall c: nat ensures t.Has(c) <==> h.Has(c) { ReleasingHas(h, a, c); }
    assert h.pages[0..] == h.pages;
  }

  lemma ReleasedHere(h: Heap, a: nat, c: nat)
    requires a in h.live
    ensures c in Free(h, a).free <==> c in h.free || c in Run(a, h.live[a])
  {
    var n := Below(h.free, a);
    assert h.free == h.free[..n] + h.free[n..];
  }

  lemma ReleasingSorted(h: Heap, a: nat, n: nat)
    requires h.Inv() && a in h.live && n == Below(h.free, a)
    requires (forall i :: 0 <= i < n ==> h.free[i] < a) && (forall i :: n <= i < |h.free| ==> h.free[i] >= a)
    ensures Sorted(Free(h, a).free)
  {
    hide Heap.PagesAhead;
    forall i | n <= i < |h.free| ensures h.free[i] >= a + CHUNK * h.live[a] {
      assert !(a <= h.free[i] < a + CHUNK * h.live[a]);
    }
    InsertSorted(h.free, n, a, h.live[a]);
  }

  lemma InsertSorted(s: seq<nat>, n: nat, a: nat, k: nat)
    requires Sorted(s) && n <= |s| && a > 0 && a % CHUNK == 0
    requires (forall i :: 0 <= i < n ==> s[i] < a) && (forall i :: n <= i < |s| ==> s[i] >= a + CHUNK * k)
    ensures Sorted(s[..n] + Run(a, k) + s[n..])
  {
    hide Run;
    var t, run := s[..n] + Run(a, k) + s[n..], Run(a, k);
    forall i | 0 <= i < |t|
      ensures t[i] == if i < n then s[i] else if i < n + k then a + CHUNK * (i - n) else s[i - k]
    {
      if n <= i < n + k { assert t[i] == run[i - n]; }
    }
    forall i | 0 <= i < |t| ensures t[i] > 0 && t[i] % CHUNK == 0 {
      if n <= i < n + k { RunAligned(a, i - n); }
    }
  }

  lemma ReleasingApart(h: Heap, a: nat)
    requires h.Inv() && a in h.live
    ensures Free(h, a).LiveApart() && Free(h, a).FreeApart() && Free(h, a).PagesAhead()
  {
    hide Below, Sorted;
    var t := Free(h, a);
    forall i, b | 0 <= i < |t.free| && b in t.live ensures !(b <= t.free[i] < b + CHUNK * t.live[b]) {
      ReleasedAt(h, a, i);
      assert b in h.live && t.live[b] == h.live[b] && b != a;
      assert a < b || b < a;
    }
    forall i, j | 0 <= i < |t.pages| && 0 <= j < |t.free| ensures t.free[j] + CHUNK <= t.pages[i] {
      ReleasedAt(h, a, j);
    }
  }

  /** A chunk of the list after a release was free, or is one of the block. */
  lemma ReleasedAt(h: Heap, a: nat, i: nat)
    requires a in h.live && i < |Free(h, a).free|
    ensures var c := Free(h, a).free[i]; c in h.free || exists j :: 0 <= j < h.live[a] && c == a + CHUNK * j
  {
    hide Below;
    var n, k := Below(h.free, a), h.live[a];
    if n <= i < n + k {
      assert Free(h, a).free[i] == Run(a, k)[i - n];
    } else {
      assert Free(h, a).free[i] == h.free[if i < n then i else i - k];
    }
  }

  lemma ReleasingHas(h: Heap, a: nat, c: nat)
    requires h.Inv() && a in h.live
    ensures Free(h, a).Has(c) <==> h.Has(c)
  {
    hide Heap.PagesAhead, Heap.FreeApart;
    var n, k := Below(h.free, a), h.live[a];
    var t := Free(h, a);
    RunHas(a, k, c);
    assert h.free == h.free[..n] + h.free[n..];
    assert c in t.free <==> c in h.free || c in Run(a, k);
    if h.Has(c) && c !in h.free {
      var b :| b in h.live && b <= c < b + CHUNK * h.live[b];
      assert b == a || (b in t.live && t.live[b] == h.live[b]);
    }
    if t.Has(c) && c !in t.free {
      var b :| b in t.live && b <= c < b + CHUNK * t.live[b];
      assert b in h.live && h.live[b] == t.live[b];
    }
  }

  /** Releasing a block right after an allocation that added no page restores the heap. */
  lemma AllocThenFree(h: Heap, size: nat)
    requires h.Inv() && size > 0 && Alloc(h, size).1.Some? && Alloc(h, size).0.pages == h.pages
    ensures Free(Alloc(h, size).0, Alloc(h, size).1.value) == h
  {
    var h1 := if h.free == [] then Extend(h) else h;
    if h.free == [] { Extending(h); }
    assert h1 == h by { SearchPages(h1, 0, None, size); }
    var m := Searching(h, 0, None, size);
    var (h2, found) := Search(h, 0, None, size);
    SearchPages(h, 0, None, size);
    var (f, to) := found.value;
    Taking(h, f, to);
    RestoreTaken(h, f, to);
  }

  /** A search that adds no page leaves the heap alone. */
  lemma {:induction false} SearchPages(h: Heap, i: nat, from: Option<nat>, size: nat)
    requires i < |h.free| && (from.Some? ==> from.value < i)
    ensures var t := Search(h, i, from, size).0; |t.pages| <= |h.pages| && (|t.pages| == |h.pages| ==> t == h)
    decreases |h.pages|, |h.free| - i
  {
    if from.Some? && Bytes(i - from.value) >= size {
    } else if i + 1 < |h.free| {
      SearchPages(h, i + 1, Collect(h.free, i, from), size);
    } else if h.pages != [] {
      SearchPages(Extend(h), i + 1, Collect(h.free, i, from), size);
    }
  }

  lemma RestoreTaken(h: Heap, f: nat, to: nat)
    requires h.Inv() && f < to < |h.free| && h.free[f] !in h.live && h.free[f..to] == Run(h.free[f], to - f)
    requires Take(h, f, to).Inv()
    ensures Free(Take(h, f, to), h.free[f]) == h
  {
    hide Heap.LiveApart, Heap.FreeApart, Heap.PagesAhead, Below;
    var a, t := h.free[f], Take(h, f, to);
    TakenPlace(h.free, f, to);
    assert t.free[..f] == h.free[..f] && t.free[f..] == h.free[to..];
    assert h.free[..f] + h.free[f..to] + h.free[to..] == h.free;
    assert t.live - {a} == h.live;
  }

  /** Where a run that was taken belongs. */
  lemma TakenPlace(s: seq<nat>, f: nat, to: nat)
    requires Sorted(s) && f < to < |s| && Sorted(s[..f] + s[to..])
    ensures Below(s[..f] + s[to..], s[f]) == f
  {
    hide Below;
    var t := s[..f] + s[to..];
    BelowPlace(t, s[f]);
    var n := Below(t, s[f]);
    assert t[f] == s[to] > s[f];
    assert forall i :: 0 <= i < f ==> t[i] == s[i] < s[f];
    assert n < |t| ==> t[n] >= s[f];
  }
}
