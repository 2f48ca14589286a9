/** What the writes of each heap operation do to the links, the tags and the payloads. */
module HeapWrites {
  import opened Lists
  import opened HeapSpec
  import opened HeapLinks
  import opened HeapGrow

  lemma RunStep(mem: Mem, m: Mem, a: nat, i: nat, before: nat)
    requires RunLinked(mem, a, i, before, a + CHUNK * i)
    requires Next(m, a + CHUNK * i) == a + CHUNK * (i + 1)
    requires Prev(m, a + CHUNK * i) == if i == 0 then before else a + CHUNK * (i - 1)
    requires forall x: nat :: !(a + CHUNK * i <= x < a + CHUNK * (i + 1)) ==> Get(m, x) == Get(mem, x)
    ensures RunLinked(m, a, i + 1, before, a + CHUNK * (i + 1))
  {
    var k, after := i + 1, a + CHUNK * (i + 1);
    forall j | 0 <= j < k ensures RunLinkedAt(m, a, k, before, after, j) {
      if j < i { assert RunLinkedAt(mem, a, i, before, a + CHUNK * i, j); }
    }
  }

  /** Setting the outer links of a linked run. */
  lemma RunEnds(mem: Mem, m: Mem, a: nat, k: nat, before: nat, after: nat, before': nat, after': nat)
    requires RunLinked(mem, a, k, before, after) && k > 0
    requires Prev(m, a) == before' && Next(m, a + CHUNK * (k - 1)) == after'
    requires forall x: nat :: x != a + 8 && x != a + CHUNK * (k - 1) && a <= x < a + CHUNK * k ==>
                 Get(m, x) == Get(mem, x)
    ensures RunLinked(m, a, k, before', after')
  {
    forall j | 0 <= j < k ensures RunLinkedAt(m, a, k, before', after', j) {
      assert RunLinkedAt(mem, a, k, before, after, j);
    }
  }

  /** Where the loop of `heap_alloc` is: at position `i`, with the run from position `from` on. */
  ghost predicate Walking(s: seq<nat>, i: nat, from: Option<nat>, cur: nat, start: nat, end: nat, total: nat) {
    && i < |s| && cur == s[i] && end == (if i > 0 then s[i - 1] else 0)
    && match from
       case None => start == 0 && total == 0
       case Some(f) => f < i && start == s[f] && total == Bytes(i - f)
  }

  lemma WalkStart(s: seq<nat>)
    requires s != []
    ensures Walking(s, 0, None, s[0], 0, 0, 0)
  {
  }

  /** How one turn of the loop moves the run. */
  lemma WalkStep(s: seq<nat>, t: seq<nat>, i: nat, from: Option<nat>, cur: nat, start: nat, end: nat, total: nat,
      start': nat, total': nat)
    requires Sorted(s) && Walking(s, i, from, cur, start, end, total) && s <= t && i + 1 < |t|
    requires start' == if start == 0 then cur else if end + CHUNK != cur then 0 else start
    requires total' == if start == 0 then CHUNK_DATA else if end + CHUNK != cur then 0 else total + CHUNK
    ensures Walking(t, i + 1, Collect(s, i, from), t[i + 1], start', cur, total')
  {
  }

  /** The search goes on as long as the loop does. */
  lemma SearchStep(h: Heap, i: nat, from: Option<nat>, cur: nat, start: nat, end: nat, total: nat, size: nat)
    requires Walking(h.free, i, from, cur, start, end, total) && total < size
    ensures i < |h.free| && cur == h.free[i] && (from.Some? ==> from.value < i)
    ensures var t := if i + 1 < |h.free| then h else HeapSpec.Extend(h);
            Search(h, i, from, size)
            == if i + 1 < |t.free| then Search(t, i + 1, Collect(h.free, i, from), size) else (t, None)
  {
  }

  lemma SearchEnds(h: Heap, i: nat, from: Option<nat>, cur: nat, start: nat, end: nat, total: nat, size: nat)
    requires Walking(h.free, i, from, cur, start, end, total) && total >= size > 0
    ensures from.Some? && from.value < i < |h.free| && Search(h, i, from, size) == (h, Some((from.value, i)))
    ensures start == h.free[from.value] && end == h.free[i - 1] && total == Bytes(i - from.value)
  {
  }

  lemma ExtendFacts(h: Heap)
    ensures HeapSpec.Extend(h).live == h.live && h.free <= HeapSpec.Extend(h).free
    ensures if h.pages == [] then HeapSpec.Extend(h) == h
            else |HeapSpec.Extend(h).pages| < |h.pages| && |HeapSpec.Extend(h).free| > |h.free|
  {
  }

  lemma KeptTrans(a: Mem, b: Mem, c: Mem, live: map<nat, nat>)
    requires PayloadsKept(a, b, live) && PayloadsKept(b, c, live)
    ensures PayloadsKept(a, c, live)
  {
  }

  /** Tagging the first chunk of a run that was just unlinked. */
  lemma TaggingKeeps(h: Heap, m: Mem, m1: Mem, m2: Mem, first: nat, last: nat, first0: nat, last0: nat, f: nat, to: nat)
    requires h.Inv() && f < to <= |h.free| && Linked(m, first0, last0, h.free) && Tagged(m, h.live)
    requires m1 == Bypass(m, h.free[f], h.free[to - 1]) && Linked(m1, first, last, Cut(h.free, f, to))
    requires m2 == m1[h.free[f] := MAGIC][h.free[f] + 8 := Bytes(to - f)] && h.free[f] !in h.live
    ensures var t := Take(h, f, to);
            Linked(m2, first, last, t.free) && Tagged(m2, t.live) && PayloadsKept(m, m2, h.live)
  {
    hide Heap.PagesAhead, Linked, LinkedAt, Bypass;
    var s, a, t := h.free, h.free[f], Take(h, f, to);
    assert t.free == Cut(s, f, to);
    assert OnlyIn(m, m2, s) by {
      forall x: nat | Outside(x, s) ensures Get(m2, x) == Get(m, x) {
        OutsideWords(x, s);
        BypassFrame(m, first0, last0, s, f, to, x);
        assert x != s[f] && x != s[f] + 8;
      }
    }
    WritesKeep(m, m2, s, h.live);
    TagLinks(m1, m2, first, last, s, f, to);
  }

  /** All that taking a run off the list and tagging it does. */
  lemma Unlinking(h: Heap, m: Mem, m': Mem, first: nat, last: nat, first': nat, last': nat, f: nat, to: nat)
    requires h.Inv() && f < to <= |h.free| && Adjacent(h.free, f, to) && Linked(m, first, last, h.free)
             && Tagged(m, h.live)
    requires var start, end := h.free[f], h.free[to - 1];
             && m' == Bypass(m, start, end)[start := MAGIC][start + 8 := Bytes(to - f)]
             && first' == (if first == start then Next(m, end) else first)
             && last' == (if last == end then Prev(m, start) else last)
    ensures var t := Take(h, f, to);
            t.Inv() && Linked(m', first', last', t.free) && Tagged(m', t.live) && PayloadsKept(m, m', h.live)
  {
    hide Heap.Inv, Tagged, PayloadsKept, Adjacent, Linked, Bypass, Sorted, Cut;
    SortedList(h);
    EndLinks(m, first, last, h.free, f, to);
    Bypassing(m, first, last, h.free, f, to);
    Taking(h, f, to);
    ListEnds(m, first, last, h);
    DistinctWords(h.free, 0, f);
    DistinctWords(h.free, to - 1, |h.free| - 1);
    TaggingKeeps(h, m, Bypass(m, h.free[f], h.free[to - 1]), m', first', last', first, last, f, to);
  }

  lemma OutsideWords(x: nat, s: seq<nat>)
    requires Outside(x, s)
    ensures forall i :: 0 <= i < |s| ==> x != s[i] && x != s[i] + 8
  {
  }

  lemma TagLinks(m1: Mem, m2: Mem, first: nat, last: nat, s: seq<nat>, f: nat, to: nat)
    requires Sorted(s) && f < to <= |s| && Linked(m1, first, last, Cut(s, f, to))
    requires forall x: nat :: x != s[f] && x != s[f] + 8 ==> Get(m2, x) == Get(m1, x)
    ensures Linked(m2, first, last, Cut(s, f, to))
  {
    hide Sorted, Cut;
    var t := Cut(s, f, to);
    forall i | 0 <= i < |t| ensures LinkedAt(m2, t, i) {
      var j := if i < f then i else i + (to - f);
      assert LinkedAt(m1, t, i) && t[i] == s[j];
      DistinctWords(s, j, f);
      DistinctWords(s, f, j);
    }
  }

  lemma SortedList(h: Heap)
    requires h.Inv()
    ensures Sorted(h.free)
  {
  }

  /** The ends are null exactly if the list is empty. */
  lemma EmptyList(mem: Mem, first: nat, last: nat, h: Heap)
    requires Linked(mem, first, last, h.free) && h.Inv()
    ensures first == 0 <==> h.free == []
    ensures last == 0 <==> h.free == []
  {
    hide Heap.LiveApart, Heap.FreeApart, Heap.PagesAhead, LinkedAt;
  }

  lemma ListEnds(mem: Mem, first: nat, last: nat, h: Heap)
    requires Linked(mem, first, last, h.free)
    ensures first == (if h.free == [] then 0 else h.free[0]) && last == if h.free == [] then 0 else h.free[|h.free| - 1]
  {
  }

  lemma LinkOf(mem: Mem, first: nat, last: nat, s: seq<nat>, i: nat)
    requires Linked(mem, first, last, s) && i < |s|
    ensures Next(mem, s[i]) == (if i + 1 < |s| then s[i + 1] else 0)
    ensures Prev(mem, s[i]) == (if i > 0 then s[i - 1] else 0)
  {
    assert LinkedAt(mem, s, i);
  }

  lemma NothingMoved(mem: Mem, live: map<nat, nat>)
    ensures PayloadsKept(mem, mem, live)
  {
  }

  lemma PageAligned(h: Heap)
    requires h.Inv() && h.pages != []
    ensures h.pages[0] % CHUNK == 0 && h.pages[0] > 0
  {
    hide Sorted, Heap.LiveApart, Heap.FreeApart;
    PageIsChunk(h.pages[0]);
  }

  lemma PageIsChunk(p: nat)
    requires p % PAGE_SIZE == 0
    ensures p % CHUNK == 0
  {
  }

  lemma NoRun(mem: Mem, a: nat)
    ensures RunLinked(mem, a, 0, Prev(mem, a), a)
  {
  }

  lemma RunFirst(mem: Mem, a: nat, k: nat, before: nat, after: nat)
    requires RunLinked(mem, a, k, before, after) && k > 0
    ensures Prev(mem, a) == before && Next(mem, a + CHUNK * (k - 1)) == after
  {
    assert RunLinkedAt(mem, a, k, before, after, 0) && RunLinkedAt(mem, a, k, before, after, k - 1);
  }

  /** The four writes of an extension: link of the old tail, back link of the new run, the run, and
      its end. */
  lemma ExtendLinks(h: Heap, m0: Mem, m1: Mem, m2: Mem, m3: Mem, first: nat, last: nat, p: nat)
    requires h.Inv() && h.pages != [] && p == h.pages[0] && p % CHUNK == 0 && HeapSpec.Extend(h).Inv()
    requires Linked(m0, first, last, h.free) && Tagged(m0, h.live)
    requires m1 == (if last != 0 then m0[last := p] else m0)[p + 8 := last]
    requires forall x: nat :: !(p <= x < p + PAGE_SIZE) ==> Get(m2, x) == Get(m1, x)
    requires m3 == m2[p + CHUNK * (CHUNKS_PER_PAGE - 1) := 0] && RunLinked(m3, p, CHUNKS_PER_PAGE, last, 0)
    ensures var t := HeapSpec.Extend(h);
            && Linked(m3, if first == 0 then p else first, p + CHUNK * (CHUNKS_PER_PAGE - 1), t.free)
            && Tagged(m3, t.live) && PayloadsKept(m0, m3, t.live)
  {
    hide RunLinked, Heap.LiveApart, Heap.FreeApart, LinkedAt;
    var s, n, t := h.free, |h.free|, HeapSpec.Extend(h);
    assert last == (if n > 0 then s[n - 1] else 0) && first == (if n > 0 then s[0] else 0);
    assert n > 0 ==> s[n - 1] > 0 && s[0] > 0 && s[n - 1] + CHUNK <= p;
    forall x: nat | !(p <= x < p + PAGE_SIZE) ensures Get(m3, x) == if n > 0 && x == s[n - 1] then p else Get(m0, x) {
      assert Get(m2, x) == Get(m1, x);
    }
    forall i | 0 <= i < n ensures StaysAt(m0, m3, s, n, i) {
      DistinctWords(s, i, n - 1);
      assert s[i] + CHUNK <= p;
    }
    Inserting(m0, m3, first, last, s, n, p, CHUNKS_PER_PAGE);
    assert Insert(s, n, p, CHUNKS_PER_PAGE) == t.free;
    assert OnlyIn(m0, m3, t.free) by {
      forall x: nat | Outside(x, t.free) ensures Get(m3, x) == Get(m0, x) {
        OutsideRun(x, s, p);
        if n > 0 { assert t.free[n - 1] == s[n - 1]; }
      }
    }
    ExtendKeeps(h, m0, m3);
  }

  lemma ExtendKeeps(h: Heap, mem: Mem, m: Mem)
    requires HeapSpec.Extend(h).Inv() && OnlyIn(mem, m, HeapSpec.Extend(h).free) && Tagged(mem, h.live)
    ensures PayloadsKept(mem, m, h.live) && Tagged(m, h.live)
  {
    WritesKeep(mem, m, HeapSpec.Extend(h).free, h.live);
  }

  lemma OutsideRun(x: nat, s: seq<nat>, p: nat)
    requires Outside(x, s + Run(p, CHUNKS_PER_PAGE)) && p % CHUNK == 0
    ensures !(p <= x < p + PAGE_SIZE)
  {
    var t, c := s + Run(p, CHUNKS_PER_PAGE), x / CHUNK * CHUNK;
    RunHas(p, CHUNKS_PER_PAGE, c);
    assert c in Run(p, CHUNKS_PER_PAGE) ==> c in t;
  }

  // ---- release

  /** The null address ends the list. */
  lemma AtEnd(h: Heap, j: nat)
    requires h.Inv() && j <= |h.free| && At(h.free, j) == 0
    ensures j == |h.free|
  {
  }

  lemma BlockFacts(h: Heap, mem: Mem, a: nat)
    requires h.Inv() && a in h.live && Tagged(mem, h.live)
    ensures a % CHUNK == 0 && a > 0 && h.live[a] > 0 && Prev(mem, a) == Bytes(h.live[a])
  {
  }

  lemma Gap(c: nat, d: nat)
    requires c % CHUNK == 0 && d % CHUNK == 0 && c < d
    ensures c + CHUNK <= d
  {
  }

  /** A free chunk lies before the block, if it is among those below it, or after it. */
  lemma Beside(h: Heap, a: nat, i: nat)
    requires h.Inv() && a in h.live && i < |h.free|
    ensures h.free[i] > 0 && h.free[i] % CHUNK == 0 && a % CHUNK == 0
    ensures if i < Below(h.free, a) then h.free[i] + CHUNK <= a else a + CHUNK * h.live[a] <= h.free[i]
  {
    hide Heap.PagesAhead, Below;
    BelowPlace(h.free, a);
    assert !(a <= h.free[i] < a + CHUNK * h.live[a]);
    if h.free[i] < a { Gap(h.free[i], a); }
  }

  /** What one turn of the scan of `heap_free` sees. */
  lemma PlaceStep(h: Heap, mem: Mem, first: nat, last: nat, a: nat, j: nat)
    requires h.Inv() && a in h.live && j < |h.free| && Linked(mem, first, last, h.free)
    ensures var s, n := h.free, Below(h.free, a);
            && a % CHUNK == 0 && s[j] % CHUNK == 0
            && (if j < n then s[j] + CHUNK <= a else a + CHUNK * h.live[a] <= s[j])
            && Next(mem, s[j]) == At(s, j + 1) && Prev(mem, s[j]) == At(s, j - 1)
            && (j > n ==> At(s, n - 1) != At(s, j - 1))
  {
    hide Heap.Inv, Below, Linked;
    Beside(h, a, j);
    SortedList(h);
    LinkOf(mem, first, last, h.free, j);
  }

  /** The neighbours of a block on the free list do not overlap it. */
  lemma BesideBlock(h: Heap, a: nat)
    requires h.Inv() && a in h.live
    ensures var s, n := h.free, Below(h.free, a);
            && (n > 0 ==> 0 < s[n - 1] && s[n - 1] + CHUNK <= a)
            && (n < |s| ==> 0 < s[n] && a + CHUNK * h.live[a] <= s[n])
  {
    hide Heap.Inv, Below;
    var s, n := h.free, Below(h.free, a);
    if n > 0 { Beside(h, a, n - 1); }
    if n < |s| { Beside(h, a, n); }
  }

  /** What `heap_free` has written when it is done. */
  ghost predicate FreeWrites(s: seq<nat>, n: nat, a: nat, k: nat, m0: Mem, m1: Mem, m2: Mem, m3: Mem) {
    && k > 0 && n <= |s|
    && RunLinked(m1, a, k, Prev(m0, a), a + CHUNK * k)
    && (forall x: nat :: !(a <= x < a + CHUNK * k) ==> Get(m1, x) == Get(m0, x))
    && Prev(m2, a) == At(s, n - 1) && Next(m2, a + CHUNK * (k - 1)) == At(s, n)
    && (forall x: nat :: x != a + 8 && x != a + CHUNK * (k - 1) ==> Get(m2, x) == Get(m1, x))
    && m3 == var m := if n > 0 then m2[s[n - 1] := a] else m2; if n < |s| then m[s[n] + 8 := a + CHUNK * (k - 1)] else m
  }

  lemma FreeLinks(h: Heap, m0: Mem, m1: Mem, m2: Mem, m3: Mem, first: nat, last: nat, a: nat)
    requires h.Inv() && a in h.live && Linked(m0, first, last, h.free) && Tagged(m0, h.live)
    requires FreeWrites(h.free, Below(h.free, a), a, h.live[a], m0, m1, m2, m3)
    ensures var t, n, k := Free(h, a), Below(h.free, a), h.live[a];
            && t.Inv()
            && Linked(m3, if n == 0 then a else first, if n == |h.free| then a + CHUNK * (k - 1) else last, t.free)
            && Tagged(m3, t.live) && PayloadsKept(m0, m3, t.live)
  {
    hide Heap.Inv, Linked, Tagged, PayloadsKept, Below, Insert, Grew;
    var s, n, k, t := h.free, Below(h.free, a), h.live[a], Free(h, a);
    Releasing(h, a);
    BesideBlock(h, a);
    FreeRun(h, m0, m1, m2, m3, a);
    Inserting(m0, m3, first, last, s, n, a, k);
    assert Insert(s, n, a, k) == t.free by { InsertIs(s, n, a, k); }
    FreeOnlyIn(h, m0, m1, m2, m3, a);
    FreeKeeps(h, m0, m3, a);
  }

  lemma InsertIs(s: seq<nat>, n: nat, a: nat, k: nat)
    requires n <= |s|
    ensures Insert(s, n, a, k) == s[..n] + Run(a, k) + s[n..]
  {
  }

  lemma FreeRun(h: Heap, m0: Mem, m1: Mem, m2: Mem, m3: Mem, a: nat)
    requires h.Inv() && a in h.live
    requires FreeWrites(h.free, Below(h.free, a), a, h.live[a], m0, m1, m2, m3)
    ensures var s, n, k := h.free, Below(h.free, a), h.live[a];
            && RunLinked(m3, a, k, if n > 0 then s[n - 1] else 0, if n < |s| then s[n] else 0)
            && (n > 0 ==> Next(m3, s[n - 1]) == a)
            && (n < |s| ==> Prev(m3, s[n]) == a + CHUNK * (k - 1))
            && forall i :: 0 <= i < |s| ==> StaysAt(m0, m3, s, n, i)
  {
    hide Heap.Inv, Below, RunLinked;
    var s, n, k := h.free, Below(h.free, a), h.live[a];
    SortedList(h);
    BesideBlock(h, a);
    RunEnds(m1, m3, a, k, Prev(m0, a), a + CHUNK * k, if n > 0 then s[n - 1] else 0, if n < |s| then s[n] else 0);
    forall i | 0 <= i < |s| ensures StaysAt(m0, m3, s, n, i) {
      FreeStays(h, m0, m1, m2, m3, a, i);
    }
  }

  lemma FreeStays(h: Heap, m0: Mem, m1: Mem, m2: Mem, m3: Mem, a: nat, i: nat)
    requires h.Inv() && a in h.live && i < |h.free|
    requires FreeWrites(h.free, Below(h.free, a), a, h.live[a], m0, m1, m2, m3)
    ensures StaysAt(m0, m3, h.free, Below(h.free, a), i)
  {
    hide Heap.Inv, Below, RunLinked, Sorted;
    var s, n, k := h.free, Below(h.free, a), h.live[a];
    SortedList(h);
    Beside(h, a, i);
    if n > 0 {
      DistinctWords(s, i, n - 1);
      DistinctWords(s, n - 1, i);
    }
    if n < |s| {
      DistinctWords(s, i, n);
      DistinctWords(s, n, i);
    }
    assert Get(m2, s[i]) == Get(m0, s[i]) && Get(m2, s[i] + 8) == Get(m0, s[i] + 8);
  }

  lemma FreeOnlyIn(h: Heap, m0: Mem, m1: Mem, m2: Mem, m3: Mem, a: nat)
    requires h.Inv() && a in h.live
    requires FreeWrites(h.free, Below(h.free, a), a, h.live[a], m0, m1, m2, m3)
    ensures OnlyIn(m0, m3, Free(h, a).free)
  {
    hide Heap.Inv, Below, RunLinked;
    var s, n, k, t := h.free, Below(h.free, a), h.live[a], Free(h, a);
    BlockAligned(h, a);
    forall x: nat | Outside(x, t.free) ensures Get(m3, x) == Get(m0, x) {
      if n > 0 { assert t.free[n - 1] == s[n - 1]; }
      if n < |s| { assert t.free[n + k] == s[n]; }
      assert !(a <= x < a + CHUNK * k) by {
        var c := x / CHUNK * CHUNK;
        RunHas(a, k, c);
        assert c in Run(a, k) ==> c in t.free;
      }
    }
  }

  lemma BlockAligned(h: Heap, a: nat)
    requires h.Inv() && a in h.live
    ensures a % CHUNK == 0
  {
  }

  lemma FreeKeeps(h: Heap, mem: Mem, m: Mem, a: nat)
    requires a in h.live && Free(h, a).Inv() && OnlyIn(mem, m, Free(h, a).free) && Tagged(mem, h.live)
    ensures PayloadsKept(mem, m, Free(h, a).live) && Tagged(m, Free(h, a).live)
  {
    WritesKeep(mem, m, Free(h, a).free, Free(h, a).live);
  }

  // ---- growing in place

  /** The chunks seen so far, `j` of them, hold the first `m` of those that run from `c` on at
      position `n`; the run ended, if the scan is past its end. */
  ghost predicate Claiming(s: seq<nat>, n: nat, c: nat, j: nat, m: nat) {
    && j <= |s| && n + m <= |s| && (if j < n then m == 0 else n + m <= j)
    && (forall i :: 0 <= i < m ==> s[n + i] == c + CHUNK * i)
    && (n + m < j ==> s[n + m] != c + CHUNK * m)
  }

  lemma ClaimStart(h: Heap, a: nat, size: nat)
    requires h.Inv() && a in h.live && Bytes(h.live[a]) < size
    ensures Claiming(h.free, Below(h.free, a), a + CHUNK * h.live[a], 0, 0) && Bytes(h.live[a] - 1) < size
  {
  }

  lemma SortedAt(h: Heap, j: nat)
    requires h.Inv() && j < |h.free|
    ensures h.free[j] > 0
  {
  }

  /** Once the run has ended, nothing continues it. */
  lemma ClaimPast(h: Heap, a: nat, j: nat, m: nat)
    requires h.Inv() && a in h.live && j < |h.free| && Below(h.free, a) + m < j
    requires Claiming(h.free, Below(h.free, a), a + CHUNK * h.live[a], j, m)
    ensures h.free[j] > a + CHUNK * h.live[a] + CHUNK * m
  {
    hide Heap.Inv, Below;
    var s, n := h.free, Below(h.free, a);
    SortedList(h);
    Beside(h, a, n + m);
    if m > 0 {
      assert s[n + (m - 1)] == a + CHUNK * h.live[a] + CHUNK * (m - 1);
      Gap(s[n + m - 1], s[n + m]);
    }
  }

  lemma ClaimStep(h: Heap, a: nat, j: nat, m: nat)
    requires h.Inv() && a in h.live && j < |h.free| && Claiming(h.free, Below(h.free, a), a + CHUNK * h.live[a], j, m)
    ensures var s, n, c := h.free, Below(h.free, a), a + CHUNK * h.live[a];
            if s[j] == c + CHUNK * m then n <= j && s[n] > 0 && j == n + m
               && Claiming(s, n, c, j + 1, m + 1) else Claiming(s, n, c, j + 1, m)
  {
    hide Heap.Inv, Below, Sorted;
    var s, n, c := h.free, Below(h.free, a), a + CHUNK * h.live[a];
    Beside(h, a, j);
    if n <= j { SortedAt(h, n); }
    if n + m < j { ClaimPast(h, a, j, m); }
  }

  lemma ClaimEnd(h: Heap, a: nat, size: nat, j: nat, m: nat)
    requires h.Inv() && a in h.live && h.live[a] > 0 && Claiming(h.free, Below(h.free, a), a + CHUNK * h.live[a], j, m)
    requires Bytes(h.live[a]) < size && Bytes(h.live[a] + m - 1) < size
             && (Bytes(h.live[a] + m) < size ==> At(h.free, j) == 0)
    ensures var k, d := h.live[a], Missing(h.live[a], size);
            && d > 0 && (Bytes(k + m) >= size <==> Room(h, a, d)) && (Bytes(k + m) >= size ==> d == m)
    ensures var s, n := h.free, Below(h.free, a);
            && n + m <= |s|
            && (m > 0 ==> s[n + m - 1] == a + CHUNK * (h.live[a] + m - 1))
  {
    hide Heap.Inv, Below;
    var s, n, c, k, d := h.free, Below(h.free, a), a + CHUNK * h.live[a], h.live[a], Missing(h.live[a], size);
    assert m > 0 ==> s[n + (m - 1)] == c + CHUNK * (m - 1);
    if Bytes(k + m) >= size {
      assert d == m;
      assert s[n..n + m] == Run(c, m);
    } else {
      AtEnd(h, j);
      assert m < d;
      assert n <= |s|;
      if n + d <= |s| {
        assert s[n + m] == s[n..n + d][m];
        assert s[n..n + d][m] != Run(c, d)[m];
      }
    }
  }

  /** Whether `heap_realloc` leaves the list with the right ends when it takes `m` chunks. */
  predicate EndsRight(h: Heap, a: nat, m: nat) {
    var n := Below(h.free, a);
    m <= 1 || (n > 0 && n + m < |h.free|)
  }

  lemma NoneMissing(h: Heap, a: nat, size: nat)
    requires h.Inv() && a in h.live && h.live[a] > 0 && Bytes(h.live[a]) >= size
    ensures Missing(h.live[a], size) == 0 && EndsRight(h, a, 0)
  {
  }

  lemma SomeMissing(k: nat, size: nat)
    requires k > 0 && Bytes(k) < size
    ensures Missing(k, size) > 0
  {
  }

  /** The writes of growing in place keep payloads, links and tags, but for the new size. */
  lemma GrowingKeeps(h: Heap, m: Mem, m1: Mem, m2: Mem, first0: nat, last0: nat, a: nat, d: nat)
    requires h.Inv() && a in h.live && d > 0 && Room(h, a, d) && Tagged(m, h.live) && Linked(m, first0, last0, h.free)
    requires Below(h.free, a) + d <= |h.free|
    requires var n := Below(h.free, a); m1 == Bypass(m, h.free[n], h.free[n + d - 1])
    requires m2 == m1[a + 8 := Bytes(h.live[a] + d)]
    ensures Tagged(m2, Grown(h, a, d).live) && PayloadsKept(m, m2, h.live)
    ensures forall i :: 0 <= i < |h.free| ==> SameLinks(m1, m2, h.free[i])
  {
    hide Heap.Inv, Linked, LinkedAt, Bypass, Below, Sorted, Tagged, PayloadsKept, Room, Outside;
    var s, n := h.free, Below(h.free, a);
    SortedList(h);
    assert OnlyIn(m, m1, s) by {
      forall x: nat | Outside(x, s) ensures Get(m1, x) == Get(m, x) {
        OutsideWords(x, s);
        BypassFrame(m, first0, last0, s, n, n + d, x);
      }
    }
    KeepsLive(h, m, m1);
    SizeWrite(h, m1, m2, a, d);
    KeptTrans(m, m1, m2, h.live);
  }

  ghost predicate SameLinks(m: Mem, m': Mem, c: nat) {
    Next(m', c) == Next(m, c) && Prev(m', c) == Prev(m, c)
  }

  lemma KeepsLive(h: Heap, mem: Mem, m: Mem)
    requires h.Inv() && OnlyIn(mem, m, h.free) && Tagged(mem, h.live)
    ensures PayloadsKept(mem, m, h.live) && Tagged(m, h.live)
  {
    WritesKeep(mem, m, h.free, h.live);
  }

  lemma SizeWrite(h: Heap, m1: Mem, m2: Mem, a: nat, d: nat)
    requires h.Inv() && a in h.live && Tagged(m1, h.live) && m2 == m1[a + 8 := Bytes(h.live[a] + d)]
    ensures Tagged(m2, h.live[a := h.live[a] + d]) && PayloadsKept(m1, m2, h.live)
    ensures forall i :: 0 <= i < |h.free| ==> SameLinks(m1, m2, h.free[i])
  {
    hide Heap.PagesAhead;
    forall b | b in h.live && b != a ensures b != a + 8 && b + 8 != a + 8 && !InPayload(b, h.live[b], a + 8) {
      assert if a < b then a + CHUNK * h.live[a] <= b else b + CHUNK * h.live[b] <= a;
    }
    forall i | 0 <= i < |h.free| ensures SameLinks(m1, m2, h.free[i]) {
      assert !(a <= h.free[i] < a + CHUNK * h.live[a]);
    }
  }

  /** The list that is left is right exactly if its ends are. */
  lemma GrownEnds(h: Heap, m1: Mem, m2: Mem, first: nat, last: nat, first': nat, last': nat, a: nat, d: nat)
    requires h.Inv() && a in h.live && d > 0 && Room(h, a, d) && Below(h.free, a) + d <= |h.free|
    requires var n := Below(h.free, a); Linked(m1, first', last', Cut(h.free, n, n + d))
    requires forall i :: 0 <= i < |h.free| ==> SameLinks(m1, m2, h.free[i])
    ensures Linked(m2, first, last, Grown(h, a, d).free) <==> first == first' && last == last'
  {
    hide Heap.Inv, Below, Room, Sorted, Cut;
    var n, t := Below(h.free, a), Grown(h, a, d).free;
    forall i | 0 <= i < |t| ensures LinkedAt(m2, t, i) {
      assert LinkedAt(m1, t, i);
      assert t[i] == h.free[if i < n then i else i + d];
      assert SameLinks(m1, m2, t[i]);
    }
  }

  /** The chunks around a run are not the ends of the list that holds it. */
  lemma OtherEnds(h: Heap, n: nat, d: nat)
    requires h.Inv() && d > 0 && n + d <= |h.free|
    ensures At(h.free, n + d) != h.free[0] && At(h.free, n - 1) != h.free[|h.free| - 1]
  {
    hide Heap.LiveApart, Heap.FreeApart, Heap.PagesAhead;
  }

  lemma AbsorbNeighbours(h: Heap, mem: Mem, first: nat, last: nat, n: nat, d: nat)
    requires h.Inv() && Linked(mem, first, last, h.free) && d > 0 && n + d <= |h.free|
    ensures Prev(mem, h.free[n]) == At(h.free, n - 1) && Next(mem, h.free[n + d - 1]) == At(h.free, n + d)
  {
    hide Heap.Inv, Linked;
    LinkOf(mem, first, last, h.free, n);
    LinkOf(mem, first, last, h.free, n + d - 1);
  }

  /** All that growing in place does: invariant, tags and payloads are kept; the list is right
      exactly if its ends are. */
  lemma Absorbing(h: Heap, m: Mem, m': Mem, first: nat, last: nat, first': nat, last': nat, a: nat, d: nat)
    requires h.Inv() && a in h.live && d > 0 && Room(h, a, d) && Tagged(m, h.live) && Linked(m, first, last, h.free)
    requires Below(h.free, a) + d <= |h.free|
    requires var start, end := h.free[Below(h.free, a)], h.free[Below(h.free, a) + d - 1];
             && m' == Bypass(m, start, end)[a + 8 := Bytes(h.live[a] + d)]
             && first' == (if first == end then Next(m, end) else first)
             && last' == (if last == start then Prev(m, start) else last)
    ensures var t := Grown(h, a, d);
            && t.Inv() && Tagged(m', t.live) && PayloadsKept(m, m', h.live)
            && (Linked(m', first', last', t.free) <==> EndsRight(h, a, d))
  {
    hide Heap.Inv, Linked, Tagged, PayloadsKept, Bypass, Below, Adjacent, Sorted, Room, Cut, Grew, Grown;
    var s, n := h.free, Below(h.free, a);
    var m1 := Bypass(m, s[n], s[n + d - 1]);
    SortedList(h);
    Growing(h, a, d);
    Bypassing(m, first, last, s, n, n + d);
    GrowingKeeps(h, m, m1, m', first, last, a, d);
    var first1, last1 := if n == 0 then Next(m, s[n + d - 1]) else first, if n + d == |s| then Prev(m, s[n]) else last;
    GrownEnds(h, m1, m', first', last', first1, last1, a, d);
    AbsorbNeighbours(h, m, first, last, n, d);
    OtherEnds(h, n, d);
    ListEnds(m, first, last, h);
    DistinctWords(s, 0, n + d - 1);
    DistinctWords(s, n, |s| - 1);
  }

  // ---- payloads

  function Cell(mem: Mem, p: nat, x: nat): nat { Get(mem, p + x) }

  /** `n` bytes at `q` are what `n` bytes at `p` were. */
  ghost predicate Copied(m: Mem, p: nat, m': Mem, q: nat, n: nat) {
    forall x: nat :: x < n && x % 8 == 0 ==> Cell(m', q, x) == Cell(m, p, x)
  }

  /** Memory differs within the payload of one block only. */
  ghost predicate OnlyPayload(m: Mem, m': Mem, b: nat, k: nat) {
    forall x: nat :: !InPayload(b, k, x) ==> Get(m', x) == Get(m, x)
  }

  lemma CopyWrites(h: Heap, m: Mem, m': Mem, first: nat, last: nat, b: nat, n: nat)
    requires h.Inv() && b in h.live && Linked(m, first, last, h.free) && Tagged(m, h.live)
    requires b + CHUNK_META + n <= b + CHUNK * h.live[b]
    requires forall x: nat :: !(b + CHUNK_META <= x < b + CHUNK_META + n) ==> Get(m', x) == Get(m, x)
    ensures Linked(m', first, last, h.free) && Tagged(m', h.live) && OnlyPayload(m, m', b, h.live[b])
  {
    hide Heap.Inv, Linked, Tagged;
    PayloadWrites(h, m, m', first, last, b);
  }

  /** Writes to the payload of one allocation concern nothing else. */
  lemma PayloadWrites(h: Heap, m: Mem, m': Mem, first: nat, last: nat, b: nat)
    requires h.Inv() && b in h.live && Linked(m, first, last, h.free) && Tagged(m, h.live)
    requires OnlyPayload(m, m', b, h.live[b])
    ensures Linked(m', first, last, h.free) && Tagged(m', h.live) && PayloadsKept(m, m', h.live - {b})
  {
    hide Heap.PagesAhead, Sorted, LinkedAt;
    forall i | 0 <= i < |h.free| ensures LinkedAt(m', h.free, i) {
      assert LinkedAt(m, h.free, i);
      Beside(h, b, i);
      SameLinked(m, m', h.free, i);
    }
    forall c | c in h.live && c != b ensures c + CHUNK * h.live[c] <= b || b + CHUNK * h.live[b] <= c {
      assert c < b || b < c;
    }
  }

  lemma SameLinked(m: Mem, m': Mem, s: seq<nat>, i: nat)
    requires i < |s| && LinkedAt(m, s, i) && SameLinks(m, m', s[i])
    ensures LinkedAt(m', s, i)
  {
  }

  lemma BlockKept(m: Mem, m': Mem, live: map<nat, nat>, a: nat)
    requires PayloadsKept(m, m', live) && a in live && live[a] > 0
    ensures Copied(m, a + CHUNK_META, m', a + CHUNK_META, Bytes(live[a])) && PayloadsKept(m, m', live - {a})
  {
    var p := a + CHUNK_META;
    forall x: nat | x < Bytes(live[a]) ensures Cell(m', p, x) == Cell(m, p, x) {
      assert InPayload(a, live[a], a + CHUNK_META + x);
    }
  }

  lemma TagOf(mem: Mem, live: map<nat, nat>, a: nat)
    requires Tagged(mem, live) && a in live
    ensures Next(mem, a) == MAGIC && Prev(mem, a) == Bytes(live[a])
  {
  }

  /** The block that replaces the one at `a` is larger and lies elsewhere. */
  lemma MoveApart(h: Heap, t: Heap, a: nat, b: nat, size: nat)
    requires t.Inv() && a in h.live && h.live[a] > 0 && b !in h.live && b in t.live && t.live == h.live[b := t.live[b]]
    requires Fits(t.live[b], size) && Bytes(h.live[a]) < size
    ensures a in t.live && t.live[a] == h.live[a] && t.live[b] > h.live[a]
    ensures a + CHUNK * h.live[a] <= b || b + CHUNK * t.live[b] <= a
  {
    hide Sorted, Heap.FreeApart, Heap.PagesAhead;
    assert a < b || b < a;
  }

  /** Allocation, copy and release together. */
  lemma Moved(h: Heap, t: Heap, u: Heap, m0: Mem, m1: Mem, m2: Mem, m3: Mem, a: nat, b: nat)
    requires t.Inv() && a in h.live && h.live[a] > 0 && b !in h.live && b in t.live
             && t.live == h.live[b := t.live[b]] && t.live[b] > h.live[a]
    requires u.live == t.live - {a}
    requires PayloadsKept(m0, m1, h.live) && PayloadsKept(m2, m3, u.live)
    requires Copied(m1, a + CHUNK_META, m2, b + CHUNK_META, Bytes(h.live[a]))
    requires OnlyPayload(m1, m2, b, t.live[b])
    ensures PayloadsKept(m0, m3, h.live - {a})
    ensures Copied(m0, a + CHUNK_META, m3, b + CHUNK_META, Bytes(h.live[a]))
  {
    hide Sorted, Heap.FreeApart, Heap.PagesAhead;
    var p, q := a + CHUNK_META, b + CHUNK_META;
    forall x: nat | x < Bytes(h.live[a]) && x % 8 == 0 ensures Cell(m3, q, x) == Cell(m0, p, x) {
      assert Cell(m2, q, x) == Cell(m1, p, x);
      assert InPayload(b, u.live[b], b + CHUNK_META + x) && InPayload(a, h.live[a], a + CHUNK_META + x);
    }
    forall c, x: nat | c in h.live - {a} && InPayload(c, h.live[c], x) ensures Get(m3, x) == Get(m0, x) {
      assert c in u.live && u.live[c] == h.live[c];
      assert c < b || b < c;
      assert !InPayload(b, t.live[b], x);
    }
  }

  lemma BytesWords(k: nat)
    requires k > 0
    ensures Bytes(k) % 8 == 0 && Bytes(k) == CHUNK * k - CHUNK_META
  {
    assert Bytes(k) == 8 * (4 * k - 2);
  }

  lemma FreeLive(h: Heap, a: nat)
    requires a in h.live
    ensures Free(h, a).live == h.live - {a}
  {
  }
}
