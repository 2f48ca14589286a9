/** Which run of free chunks `heap_alloc` (kernel/mm/heap.c) takes, and when it fails, from the free list
    and the pages to come alone: told without the steps of the search. */
module HeapSearch {
  import opened Lists
  import opened HeapSpec

  /** Chunk `b` does not follow the chunk before it, which is not itself skipped: the search skips `b`. */
  predicate Skipped(s: seq<nat>, b: nat) {
    0 < b < |s| && s[b - 1] + CHUNK != s[b] && !Skipped(s, b - 1)
  }

  /** Positions that a run can start at: the first, and those right after a chunk that is skipped. */
  predicate Start(s: seq<nat>, f: nat) { f == 0 || Skipped(s, f - 1) }

  /** Positions `[f, to)` can serve the request: adjacent chunks from a start on, as many as it takes, and
      a chunk after them. */
  ghost predicate Serves(s: seq<nat>, f: nat, to: nat, size: nat) {
    Start(s, f) && f < to < |s| && Adjacent(s, f, to) && Fits(to - f, size)
  }

  /** No run before position `i` can. */
  ghost predicate NoneBefore(s: seq<nat>, i: nat, size: nat) {
    forall f: nat, to: nat :: to < i ==> !Serves(s, f, to, size)
  }

  /** No run of the list can. */
  ghost predicate NoneServes(s: seq<nat>, size: nat) { NoneBefore(s, |s|, size) }

  /** The lowest run that can. */
  ghost predicate Lowest(s: seq<nat>, f: nat, to: nat, size: nat) {
    Serves(s, f, to, size) && forall g: nat, u: nat :: Serves(s, g, u, size) && (g, u) != (f, to) ==> f < g
  }

  /** The heap with its first `n` pages added. */
  function Added(h: Heap, n: nat): (r: Heap)
    requires n <= |h.pages|
    ensures h.free <= r.free && r.live == h.live && r.pages == h.pages[n..]
    decreases n
  {
    if n == 0 then h else Added(Extend(h), n - 1)
  }

  // ---- starts

  /** A run does not go on past the next start. */
  lemma StartsApart(s: seq<nat>, g: nat, f: nat, to: nat)
    requires g < f && Start(s, g) && Start(s, f) && g < to <= |s| && Adjacent(s, g, to)
    ensures to < f
  {
  }

  /** Whether a position is a start depends on what comes before it. */
  lemma {:induction false} SkippedPrefix(s: seq<nat>, t: seq<nat>, b: nat)
    requires s <= t && b < |s|
    ensures Skipped(s, b) == Skipped(t, b)
    decreases b
  {
    if b > 0 { SkippedPrefix(s, t, b - 1); }
  }

  lemma StartPrefix(s: seq<nat>, t: seq<nat>, f: nat)
    requires s <= t && f <= |s|
    ensures Start(s, f) == Start(t, f)
  {
    hide Skipped;
    if f > 0 { SkippedPrefix(s, t, f - 1); }
  }

  lemma ServesPrefix(s: seq<nat>, t: seq<nat>, f: nat, to: nat, size: nat)
    requires s <= t && to < |s|
    ensures Serves(s, f, to, size) == Serves(t, f, to, size)
  {
    hide Start, Fits;
    if f < to { StartPrefix(s, t, f); }
  }

  /** Only one length fits a request. */
  lemma OneLength(j: nat, k: nat, size: nat)
    requires Fits(j, size) && Fits(k, size)
    ensures j == k
  {
  }

  // ---- the search

  /** What the search has seen before it looks at position `i`. */
  ghost predicate Scanned(s: seq<nat>, i: nat, from: Option<nat>, size: nat) {
    && i <= |s| && NoneBefore(s, i, size)
    && match from
       case None => Start(s, i)
       case Some(f) => f < i && Start(s, f) && Adjacent(s, f, i) && Bytes(i - 1 - f) < size
  }

  /** A run that is long enough is the lowest that can serve. */
  lemma ScanFinds(s: seq<nat>, i: nat, f: nat, size: nat)
    requires i < |s| && Scanned(s, i, Some(f), size) && Bytes(i - f) >= size
    ensures Lowest(s, f, i, size)
  {
    hide Adjacent, Start;
    assert Serves(s, f, i, size);
    forall g: nat, u: nat | Serves(s, g, u, size) && (g, u) != (f, i) ensures f < g {
      if g < f { StartsApart(s, g, f, u); }
      if g == f { OneLength(u - g, i - f, size); }
    }
  }

  /** Otherwise none ends at `i`. */
  lemma ScanMisses(s: seq<nat>, i: nat, from: Option<nat>, size: nat)
    requires i < |s| && Scanned(s, i, from, size) && (from.Some? ==> Bytes(i - from.value) < size)
    ensures NoneBefore(s, i + 1, size)
  {
    hide Adjacent, Start;
    forall g: nat | g < i ensures !Serves(s, g, i, size) {
      if Serves(s, g, i, size) {
        match from {
          case None => StartsApart(s, g, i, i);
          case Some(f) =>
            if g < f { StartsApart(s, g, f, i); }
            if g > f { StartsApart(s, f, g, i); }
        }
      }
    }
  }

  /** One step of the search, on the list or on what it is extended to. */
  lemma ScanGoesOn(s: seq<nat>, i: nat, from: Option<nat>, size: nat, t: seq<nat>)
    requires i < |s| && size > 0 && Scanned(s, i, from, size) && (from.Some? ==> Bytes(i - from.value) < size) && s <= t
    ensures NoneBefore(s, i + 1, size) && Scanned(t, i + 1, Collect(s, i, from), size)
  {
    hide NoneBefore;
    ScanMisses(s, i, from, size);
    assert NoneBefore(t, i + 1, size) by { NonePrefix(s, t, i + 1, size); }
    assert Scanned(s, i + 1, Collect(s, i, from), size) by { ScanCollects(s, i, from, size); }
    match Collect(s, i, from) {
      case None => StartPrefix(s, t, i + 1);
      case Some(f) => StartPrefix(s, t, f);
    }
  }

  lemma NonePrefix(s: seq<nat>, t: seq<nat>, i: nat, size: nat)
    requires s <= t && i <= |s|
    ensures NoneBefore(s, i, size) == NoneBefore(t, i, size)
  {
    hide Serves;
    forall f: nat, to: nat | to < i ensures Serves(s, f, to, size) == Serves(t, f, to, size) {
      ServesPrefix(s, t, f, to, size);
    }
  }

  lemma ScanCollects(s: seq<nat>, i: nat, from: Option<nat>, size: nat)
    requires i < |s| && size > 0 && Scanned(s, i, from, size) && (from.Some? ==> Bytes(i - from.value) < size)
    requires NoneBefore(s, i + 1, size)
    ensures Scanned(s, i + 1, Collect(s, i, from), size)
  {
    hide NoneBefore;
    if from.Some? && Start(s, i) { StartsApart(s, from.value, i, i); }
  }

  /** The search adds no page while a run can serve, and takes the lowest run that can; it fails only when
      all pages are added and no run can. */
  lemma {:induction false} SearchExact(h: Heap, i: nat, from: Option<nat>, size: nat) returns (n: nat)
    requires i < |h.free| && (from.Some? ==> from.value < i) && size > 0 && Scanned(h.free, i, from, size)
    ensures n <= |h.pages| && forall m :: 0 <= m < n ==> NoneServes(Added(h, m).free, size)
    ensures var (t, found) := Search(h, i, from, size);
            && t == Added(h, n)
            && match found
               case None => n == |h.pages| && NoneServes(t.free, size)
               case Some((f, to)) => Lowest(t.free, f, to, size)
    decreases |h.pages|, |h.free| - i
  {
    hide Scanned, NoneBefore, Lowest;
    if from.Some? && Bytes(i - from.value) >= size {
      ScanFinds(h.free, i, from.value, size);
      n := 0;
    } else {
      var from' := Collect(h.free, i, from);
      if i + 1 < |h.free| {
        ScanGoesOn(h.free, i, from, size, h.free);
        n := SearchExact(h, i + 1, from', size);
      } else if h.pages == [] {
        ScanGoesOn(h.free, i, from, size, h.free);
        n := 0;
      } else {
        var t := Extend(h);
        ScanGoesOn(h.free, i, from, size, t.free);
        var m := SearchExact(t, i + 1, from', size);
        n := m + 1;
        assert forall k :: 0 < k <= n ==> Added(h, k) == Added(t, k - 1);
      }
    }
  }

  /** `heap_alloc` adds pages exactly until a run can serve, and takes the lowest that can. It fails if there
      is none when every page is added. */
  lemma AllocExact(h: Heap, size: nat) returns (n: nat, run: Option<(nat, nat)>)
    requires size > 0
    ensures n <= |h.pages| && forall m :: 0 <= m < n ==> NoneServes(Added(h, m).free, size)
    ensures match run
            case None => n == |h.pages| && NoneServes(Added(h, n).free, size) && Alloc(h, size) == (Added(h, n), None)
            case Some((f, to)) =>
              && Lowest(Added(h, n).free, f, to, size)
              && Alloc(h, size) == (Take(Added(h, n), f, to), Some(Added(h, n).free[f]))
  {
    hide Search, Lowest;
    var h1 := if h.free == [] then Extend(h) else h;
    n, run := 0, None;
    if h1.free != [] {
      n := SearchExact(h1, 0, None, size);
      run := Search(h1, 0, None, size).1;
      if run.Some? { LowestServes(Added(h1, n).free, run.value.0, run.value.1, size); }
      if h.free == [] {
        n := n + 1;
        assert forall k :: 0 < k <= n ==> Added(h, k) == Added(h1, k - 1);
        assert NoneServes(h.free, size);
      }
    }
  }

  lemma LowestServes(s: seq<nat>, f: nat, to: nat, size: nat)
    requires Lowest(s, f, to, size)
    ensures Serves(s, f, to, size)
  {
  }

  /** It succeeds exactly if a run can serve once every page is added. */
  lemma AllocFails(h: Heap, size: nat)
    requires size > 0
    ensures Alloc(h, size).1 == None <==> NoneServes(Added(h, |h.pages|).free, size)
  {
    hide Serves;
    var n, run := AllocExact(h, size);
    if run.Some? {
      var (f, to) := run.value;
      AddedGrows(h, n, |h.pages|);
      var s, t := Added(h, n).free, Added(h, |h.pages|).free;
      assert to < |s| by { LowestServes(s, f, to, size); assert Serves(s, f, to, size); }
      ServesPrefix(s, t, f, to, size);
    }
  }

  lemma {:induction false} AddedGrows(h: Heap, m: nat, n: nat)
    requires m <= n <= |h.pages|
    ensures Added(h, m).free <= Added(h, n).free
    decreases m
  {
    if m > 0 { AddedGrows(Extend(h), m - 1, n - 1); }
  }

  // ---- what the skipped chunks cost

  /** A run of adjacent chunks with one chunk more than the request takes, and another chunk after it, is
      always found: no page is added. */
  lemma OneMoreServes(h: Heap, p: nat, k: nat, size: nat)
    requires size > 0 && p + k + 1 < |h.free| && Adjacent(h.free, p, p + k + 1) && Fits(k, size)
    ensures Alloc(h, size).1.Some? && Alloc(h, size).0.pages == h.pages
  {
    hide Lowest, Alloc, Serves, Fits;
    var n, run := AllocExact(h, size);
    var f := StartIn(h.free, p, k);
    assert Serves(h.free, f, f + k, size) by { ServesFrom(h.free, f, k, size); }
    assert !NoneServes(Added(h, 0).free, size);
  }

  lemma ServesFrom(s: seq<nat>, f: nat, k: nat, size: nat)
    requires Start(s, f) && f + k < |s| && Adjacent(s, f, f + k) && Fits(k, size)
    ensures Serves(s, f, f + k, size)
  {
  }

  /** Every run has a start at its first or its second chunk. */
  lemma {:induction false} StartIn(s: seq<nat>, p: nat, k: nat) returns (f: nat)
    requires p + k + 1 <= |s| && Adjacent(s, p, p + k + 1)
    ensures f <= p + 1 && Start(s, f) && f + k <= |s| && Adjacent(s, f, f + k)
    decreases p
  {
    if Start(s, p) {
      f := p;
    } else if s[p - 1] + CHUNK != s[p] {
      f := p + 1;
    } else {
      f := StartIn(s, p - 1, k);
    }
  }

  /** A run of exactly as many chunks can be missed, with a chunk after it: its first chunk is skipped. */
  lemma RunMissed()
    ensures var h := Heap([4096, 4160, 4192, 4256], map[], []);
            Adjacent(h.free, 1, 3) && Fits(3 - 1, 48) && Alloc(h, 48) == (h, None)
  {
    var h := Heap([4096, 4160, 4192, 4256], map[], []);
    assert Search(h, 3, Some(2), 48).1 == None;
    assert Search(h, 2, None, 48).1 == None;
    assert Search(h, 1, Some(0), 48).1 == None;
  }
}
