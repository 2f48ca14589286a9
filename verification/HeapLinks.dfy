/** The intrusive doubly linked list that the heap keeps in the metadata of its free chunks, as a
    property of memory, and what unlinking and linking runs of chunks do to it. */
module HeapLinks {
  import opened HeapSpec

  /** 8-byte words by address. */
  type Mem = map<nat, nat>

  function Get(mem: Mem, x: nat): nat { if x in mem then mem[x] else 0 }

  // The two metadata words of a chunk.

  function Next(mem: Mem, c: nat): nat { Get(mem, c) }
  function Prev(mem: Mem, c: nat): nat { Get(mem, c + 8) }

  /** From `first` to `last`, the links run through exactly the chunks `s`, in both directions. */
  ghost predicate Linked(mem: Mem, first: nat, last: nat, s: seq<nat>) {
    && first == (if s == [] then 0 else s[0])
    && last == (if s == [] then 0 else s[|s| - 1])
    && (forall i :: 0 <= i < |s| ==> LinkedAt(mem, s, i))
  }

  /** The links of the chunk at position `i`. */
  ghost predicate LinkedAt(mem: Mem, s: seq<nat>, i: int)
    requires 0 <= i < |s|
  {
    && Next(mem, s[i]) == (if i + 1 < |s| then s[i + 1] else 0)
    && Prev(mem, s[i]) == (if i > 0 then s[i - 1] else 0)
  }

  /** Let the neighbours of the run from `start` to `end` point at each other. */
  function Bypass(mem: Mem, start: nat, end: nat): Mem {
    var m := if Prev(mem, start) != 0 then mem[Prev(mem, start) := Next(mem, end)] else mem;
    if Next(mem, end) != 0 then m[Next(mem, end) + 8 := Prev(mem, start)] else m
  }

  /** Words of distinct chunks are distinct. */
  lemma DistinctChunks(c: nat, d: nat)
    requires c % CHUNK == 0 && d % CHUNK == 0 && c != d
    ensures c + 8 != d && c != d + 8
  {
  }

  /** The chunks of the list, and their words, are distinct. */
  lemma DistinctWords(s: seq<nat>, i: nat, j: nat)
    requires Sorted(s) && i < |s| && j < |s|
    ensures (s[i] == s[j] <==> i == j) && s[i] + 8 != s[j]
  {
    if i != j { DistinctChunks(s[i], s[j]); }
  }

  /** The neighbours of positions `[f, to)`. */
  lemma EndLinks(mem: Mem, first: nat, last: nat, s: seq<nat>, f: nat, to: nat)
    requires Linked(mem, first, last, s) && Sorted(s) && f < to <= |s|
    ensures Prev(mem, s[f]) == (if f > 0 then s[f - 1] else 0) && (f > 0 ==> s[f - 1] > 0)
    ensures Next(mem, s[to - 1]) == (if to < |s| then s[to] else 0) && (to < |s| ==> s[to] > 0)
  {
    assert LinkedAt(mem, s, f) && LinkedAt(mem, s, to - 1);
  }

  /** What bypassing positions `[f, to)` does to the links of position `j`. */
  lemma BypassAt(mem: Mem, first: nat, last: nat, s: seq<nat>, f: nat, to: nat, j: nat)
    requires Linked(mem, first, last, s) && Sorted(s) && f < to <= |s| && j < |s|
    ensures var m := Bypass(mem, s[f], s[to - 1]);
            && Next(m, s[j]) == (if j + 1 == f then Next(mem, s[to - 1]) else Next(mem, s[j]))
            && Prev(m, s[j]) == (if j == to then Prev(mem, s[f]) else Prev(mem, s[j]))
  {
    EndLinks(mem, first, last, s, f, to);
    if f > 0 {
      DistinctWords(s, j, f - 1);
      DistinctWords(s, f - 1, j);
    }
    if to < |s| {
      DistinctWords(s, j, to);
      DistinctWords(s, to, j);
    }
  }

  /** The list without positions `[f, to)`. */
  function Cut(s: seq<nat>, f: nat, to: nat): (t: seq<nat>)
    requires f <= to <= |s|
    ensures |t| == |s| - (to - f) && forall i :: 0 <= i < |t| ==> t[i] == s[if i < f then i else i + (to - f)]
  {
    s[..f] + s[to..]
  }

  lemma CutLinks(mem: Mem, first: nat, last: nat, s: seq<nat>, f: nat, to: nat, i: nat)
    requires Linked(mem, first, last, s) && Sorted(s) && f < to <= |s| && i < |s| - (to - f)
    ensures LinkedAt(Bypass(mem, s[f], s[to - 1]), Cut(s, f, to), i)
  {
    hide Bypass, Sorted, Cut;
    EndLinks(mem, first, last, s, f, to);
    var t, j := Cut(s, f, to), if i < f then i else i + (to - f);
    BypassAt(mem, first, last, s, f, to, j);
    assert LinkedAt(mem, s, j) && t[i] == s[j];
    if i > 0 { assert t[i - 1] == s[if i - 1 < f then i - 1 else j - 1]; }
    if i + 1 < |t| { assert t[i + 1] == s[if i + 1 < f then i + 1 else i + 1 + (to - f)]; }
  }

  /** Bypassing a run takes it off the list. */
  lemma Bypassing(mem: Mem, first: nat, last: nat, s: seq<nat>, f: nat, to: nat)
    requires Linked(mem, first, last, s) && Sorted(s) && f < to <= |s|
    ensures Linked(Bypass(mem, s[f], s[to - 1]), if f == 0 then Next(mem, s[to - 1]) else first,
                   if to == |s| then Prev(mem, s[f]) else last, Cut(s, f, to))
  {
    hide Bypass, Sorted, Cut, LinkedAt;
    EndLinks(mem, first, last, s, f, to);
    var m, t := Bypass(mem, s[f], s[to - 1]), Cut(s, f, to);
    forall i | 0 <= i < |t| ensures LinkedAt(m, t, i) {
      CutLinks(mem, first, last, s, f, to, i);
    }
    if t != [] {
      assert t[0] == s[if f > 0 then 0 else to];
      assert t[|t| - 1] == s[if to < |s| then |s| - 1 else f - 1];
    }
  }

  lemma BypassFrame(mem: Mem, first: nat, last: nat, s: seq<nat>, f: nat, to: nat, x: nat)
    requires Linked(mem, first, last, s) && Sorted(s) && f < to <= |s|
    requires forall i :: 0 <= i < |s| ==> x != s[i] && x != s[i] + 8
    ensures Get(Bypass(mem, s[f], s[to - 1]), x) == Get(mem, x)
  {
    EndLinks(mem, first, last, s, f, to);
    if f > 0 { assert x != s[f - 1]; }
    if to < |s| { assert x != s[to] + 8; }
  }

  // ---- linking a run in

  /** A run of `k` chunks from `a` on, linked from `before` to `after`. */
  ghost predicate RunLinked(mem: Mem, a: nat, k: nat, before: nat, after: nat) {
    forall j :: 0 <= j < k ==> RunLinkedAt(mem, a, k, before, after, j)
  }

  ghost predicate RunLinkedAt(mem: Mem, a: nat, k: nat, before: nat, after: nat, j: int)
    requires 0 <= j < k
  {
    && Next(mem, a + CHUNK * j) == (if j + 1 < k then a + CHUNK * (j + 1) else after)
    && Prev(mem, a + CHUNK * j) == (if j > 0 then a + CHUNK * (j - 1) else before)
  }

  /** The links of position `i` of the list, but for the two that a run linked in at `n` takes over. */
  ghost predicate StaysAt(mem: Mem, m: Mem, s: seq<nat>, n: nat, i: int)
    requires 0 <= i < |s|
  {
    && (i + 1 != n ==> Next(m, s[i]) == Next(mem, s[i]))
    && (i != n ==> Prev(m, s[i]) == Prev(mem, s[i]))
  }

  /** The list with a run linked in at position `n`. */
  function Insert(s: seq<nat>, n: nat, a: nat, k: nat): (t: seq<nat>)
    requires n <= |s|
    ensures |t| == |s| + k
    ensures forall i :: 0 <= i < n ==> t[i] == s[i]
    ensures forall i :: n <= i < n + k ==> t[i] == a + CHUNK * (i - n)
    ensures forall i :: n + k <= i < |t| ==> t[i] == s[i - k]
  {
    s[..n] + Run(a, k) + s[n..]
  }

  /** Linking a run in between positions `n - 1` and `n`. */
  lemma Inserting(mem: Mem, m: Mem, first: nat, last: nat, s: seq<nat>, n: nat, a: nat, k: nat)
    requires Linked(mem, first, last, s) && n <= |s| && k > 0
    requires RunLinked(m, a, k, if n > 0 then s[n - 1] else 0, if n < |s| then s[n] else 0)
    requires n > 0 ==> Next(m, s[n - 1]) == a
    requires n < |s| ==> Prev(m, s[n]) == a + CHUNK * (k - 1)
    requires forall i :: 0 <= i < |s| ==> StaysAt(mem, m, s, n, i)
    ensures Linked(m, if n == 0 then a else first, if n == |s| then a + CHUNK * (k - 1) else last, Insert(s, n, a, k))
  {
    hide Insert;
    var t := Insert(s, n, a, k);
    forall i | 0 <= i < |t| ensures LinkedAt(m, t, i) {
      InsertLinks(mem, m, first, last, s, n, a, k, i);
    }
    assert t[0] == if n == 0 then a else s[0];
    assert t[|t| - 1] == if n == |s| then a + CHUNK * (k - 1) else s[|s| - 1];
  }

  lemma InsertLinks(mem: Mem, m: Mem, first: nat, last: nat, s: seq<nat>, n: nat, a: nat, k: nat, i: nat)
    requires Linked(mem, first, last, s) && n <= |s| && k > 0 && i < |s| + k
    requires RunLinked(m, a, k, if n > 0 then s[n - 1] else 0, if n < |s| then s[n] else 0)
    requires n > 0 ==> Next(m, s[n - 1]) == a
    requires n < |s| ==> Prev(m, s[n]) == a + CHUNK * (k - 1)
    requires forall i :: 0 <= i < |s| ==> StaysAt(mem, m, s, n, i)
    ensures LinkedAt(m, Insert(s, n, a, k), i)
  {
    hide Insert;
    var t := Insert(s, n, a, k);
    if n <= i < n + k {
      assert RunLinkedAt(m, a, k, if n > 0 then s[n - 1] else 0, if n < |s| then s[n] else 0, i - n);
    } else {
      var j := if i < n then i else i - k;
      assert t[i] == s[j] && LinkedAt(mem, s, j) && StaysAt(mem, m, s, n, j);
    }
    if i > 0 {
      assert t[i - 1] == if i - 1 < n then s[i - 1]
                         else if i - 1 < n + k then a + CHUNK * (i - 1 - n)
                         else s[i - 1 - k];
    }
    if i + 1 < |t| {
      assert t[i + 1] == if i + 1 < n then s[i + 1]
                         else if i + 1 < n + k then a + CHUNK * (i + 1 - n)
                         else s[i + 1 - k];
    }
  }

  // ---- what the writes leave alone

  /** Memory differs within the given chunks only. */
  ghost predicate OnlyIn(mem: Mem, m: Mem, chunks: seq<nat>) {
    forall x: nat :: Outside(x, chunks) ==> Get(m, x) == Get(mem, x)
  }

  ghost predicate Outside(x: nat, chunks: seq<nat>) {
    forall i :: 0 <= i < |chunks| ==> !(chunks[i] <= x < chunks[i] + CHUNK)
  }

  /** The words handed out with the allocation at `b`. */
  predicate InPayload(b: nat, k: nat, x: nat) { b + CHUNK_META <= x < b + CHUNK * k }

  /** Everything handed out with live allocations is as before. */
  ghost predicate PayloadsKept(mem: Mem, m: Mem, live: map<nat, nat>) {
    forall b, x: nat :: b in live && InPayload(b, live[b], x) ==> Get(m, x) == Get(mem, x)
  }

  /** The first chunk of an allocation is tagged and holds its size. */
  ghost predicate Tagged(mem: Mem, live: map<nat, nat>) {
    forall b :: b in live ==> Next(mem, b) == MAGIC && Prev(mem, b) == Bytes(live[b])
  }

  const MAGIC := 0xa71e_394b_53a8_1759

  /** Chunks that lie outside the allocations can be written without touching them. */
  lemma WritesKeep(mem: Mem, m: Mem, chunks: seq<nat>, live: map<nat, nat>)
    requires OnlyIn(mem, m, chunks)
    requires forall i :: 0 <= i < |chunks| ==> chunks[i] % CHUNK == 0
    requires forall b :: b in live ==> b % CHUNK == 0 && live[b] > 0
    requires forall i, b :: 0 <= i < |chunks| && b in live ==> !(b <= chunks[i] < b + CHUNK * live[b])
    ensures PayloadsKept(mem, m, live) && (Tagged(mem, live) ==> Tagged(m, live))
  {
    forall b, x: nat | b in live && b <= x < b + CHUNK * live[b] ensures Get(m, x) == Get(mem, x) {
      forall i | 0 <= i < |chunks| ensures !(chunks[i] <= x < chunks[i] + CHUNK) {
        assert !(b <= chunks[i] < b + CHUNK * live[b]);
      }
      assert Outside(x, chunks);
    }
    forall b | b in live ensures Next(m, b) == Next(mem, b) && Prev(m, b) == Prev(mem, b) {
      assert b <= b + 8 < b + CHUNK * live[b];
    }
  }
}
