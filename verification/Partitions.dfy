/** The partitions of a disk (kernel/core/disk/part.c): a singly linked list, rescanned by marking and
    sweeping. */
module Partitions {
  import opened Lists

  datatype Part = Part(start: nat, size: nat, available: bool, next: nat)

  type Nodes = map<nat, Part>

  /** The links run from `first` through exactly the addresses `list`, which are all there is. */
  ghost predicate Linked(first: nat, nodes: Nodes, list: seq<nat>) {
    && first == At(list, 0)
    && (forall i :: 0 <= i < |list| ==> LinkAt(nodes, list, i))
    && Distinct(list) && forall a :: a in nodes ==> a in list
  }

  ghost predicate LinkAt(nodes: Nodes, list: seq<nat>, i: int)
    requires 0 <= i < |list|
  {
    list[i] != 0 && list[i] in nodes && nodes[list[i]].next == At(list, i + 1)
  }

  predicate Is(p: Part, start: nat, size: nat) { p.start == start && p.size == size }

  /** No two partitions have the same place. */
  ghost predicate NoTwins(nodes: Nodes) {
    forall a, b :: a in nodes && b in nodes && Is(nodes[a], nodes[b].start, nodes[b].size) ==> a == b
  }

  /** Some partition is at that place. */
  ghost predicate Has(nodes: Nodes, start: nat, size: nat) { exists a :: a in nodes && Is(nodes[a], start, size) }

  /** The same partitions at the same places, whatever their flags. */
  ghost predicate SamePlaces(nodes: Nodes, nodes': Nodes) {
    nodes'.Keys == nodes.Keys && forall a :: a in nodes ==> Is(nodes'[a], nodes[a].start, nodes[a].size)
  }

  /** The addresses of the available partitions, in order. */
  ghost function Kept(nodes: Nodes, list: seq<nat>): (r: seq<nat>)
    ensures forall a :: a in r <==> a in list && a in nodes && nodes[a].available
  {
    if list == [] then []
    else
      var n := |list| - 1;
      assert list == list[..n] + [list[n]];
      Kept(nodes, list[..n]) + if list[n] in nodes && nodes[list[n]].available then [list[n]] else []
  }

  lemma LinkOf(first: nat, nodes: Nodes, list: seq<nat>, i: nat)
    requires Linked(first, nodes, list) && i < |list|
    ensures list[i] != 0 && list[i] in nodes && nodes[list[i]].next == At(list, i + 1)
  {
    assert LinkAt(nodes, list, i);
  }

  /** The end of the list is where the null address is. */
  lemma EndOf(first: nat, nodes: Nodes, list: seq<nat>, i: nat)
    requires Linked(first, nodes, list) && i <= |list|
    ensures At(list, i) == 0 <==> i == |list|
    ensures first == At(list, 0) && (forall a :: a in nodes ==> a in list)
  {
    if i < |list| { assert LinkAt(nodes, list, i); }
  }

  lemma Prepend(first: nat, nodes: Nodes, list: seq<nat>, a: nat, p: Part)
    requires Linked(first, nodes, list) && NoTwins(nodes) && a != 0 && a !in nodes && p.next == first
             && !Has(nodes, p.start, p.size)
    ensures Linked(a, nodes[a := p], [a] + list) && NoTwins(nodes[a := p])
  {
    var l, n := [a] + list, nodes[a := p];
    forall i | 0 <= i < |l| ensures LinkAt(n, l, i) {
      if i > 0 {
        assert LinkAt(nodes, list, i - 1);
        assert l[i] == list[i - 1] && At(l, i + 1) == At(list, i);
      }
    }
    forall b | b in nodes ensures !Is(nodes[b], p.start, p.size) && !Is(p, nodes[b].start, nodes[b].size) {
      assert Is(nodes[b], p.start, p.size) ==> Has(nodes, p.start, p.size);
    }
    forall i | 0 <= i < |list| ensures list[i] != a { assert LinkAt(nodes, list, i); }
  }

  /** Flags do not matter to the list. */
  lemma Flagged(first: nat, nodes: Nodes, list: seq<nat>, a: nat, available: bool)
    requires Linked(first, nodes, list) && a in nodes
    ensures var n := nodes[a := nodes[a].(available := available)];
            Linked(first, n, list) && SamePlaces(nodes, n) && (NoTwins(nodes) ==> NoTwins(n))
  {
    var n := nodes[a := nodes[a].(available := available)];
    forall i | 0 <= i < |list| ensures LinkAt(n, list, i) { assert LinkAt(nodes, list, i); }
  }

  lemma SameTrans(a: Nodes, b: Nodes, c: Nodes)
    requires SamePlaces(a, b) && SamePlaces(b, c)
    ensures SamePlaces(a, c)
  {
  }

  class Table {
    var first: nat
    var nodes: Nodes
    var count: nat
    ghost var list: seq<nat>

    constructor ()
      ensures Valid() && list == []
    {
      first, nodes, count, list := 0, map[], 0, [];
    }

    ghost predicate Valid()
      reads this
    {
      Linked(first, nodes, list) && NoTwins(nodes) && count == |list|
    }

    /** `disk_part_add`: the partition that is there, or a new one at the head of the list; `room` is
        the memory for it, null if there is none. */
    method Add(start: nat, size: nat, room: nat) returns (r: nat)
      requires Valid() && room !in nodes
      modifies this
      ensures Valid()
      ensures if r == 0 then room == 0 && !Has(old(nodes), start, size) && unchanged(this)
              else r in nodes && Is(nodes[r], start, size)
      ensures Has(old(nodes), start, size) || room == 0 ==> unchanged(this)
      ensures !Has(old(nodes), start, size) && room != 0 ==>
                r == room && list == [room] + old(list)
                    && nodes == old(nodes)[room := Part(start, size, false, old(first))]
    {
      hide Linked, NoTwins, Has;
      var cur := first;
      ghost var i: nat := 0;
      EndOf(first, nodes, list, 0);
      while cur != 0
        invariant i <= |list| && cur == At(list, i) && unchanged(this)
        invariant forall j :: 0 <= j < i ==> list[j] in nodes && !Is(nodes[list[j]], start, size)
        decreases |list| - i
      {
        LinkOf(first, nodes, list, i);
        if nodes[cur].start == start && nodes[cur].size == size {
          Found(nodes, cur);
          return cur;
        }
        cur, i := nodes[cur].next, i + 1;
      }
      EndOf(first, nodes, list, i);
      NotFound(nodes, list, start, size);
      if room == 0 { return 0; }
      Prepend(first, nodes, list, room, Part(start, size, false, first));
      nodes := nodes[room := Part(start, size, false, first)];
      first, count, list := room, count + 1, [room] + list;
      r := room;
    }

    /** `__disk_part_block` */
    method Block()
      requires Valid()
      modifies this`nodes
      ensures Valid() && SamePlaces(old(nodes), nodes) && forall a :: a in nodes ==> !nodes[a].available
    {
      hide Linked, NoTwins, SamePlaces;
      var cur := first;
      ghost var i: nat := 0;
      EndOf(first, nodes, list, 0);
      NothingChanged(nodes);
      while cur != 0
        invariant i <= |list| && cur == At(list, i) && Valid() && SamePlaces(old(nodes), nodes)
        invariant forall j :: 0 <= j < i ==> list[j] in nodes && !nodes[list[j]].available
        decreases |list| - i
      {
        LinkOf(first, nodes, list, i);
        Flagged(first, nodes, list, cur, false);
        SameTrans(old(nodes), nodes, nodes[cur := nodes[cur].(available := false)]);
        nodes := nodes[cur := nodes[cur].(available := false)];
        cur, i := nodes[cur].next, i + 1;
      }
      EndOf(first, nodes, list, i);
    }

    /** Take the node at position `d` off the list and free it. */
    method Drop(trav: nat, pre: nat, ghost d: nat) returns (next: nat)
      requires Linked(first, nodes, list) && d < |list| == count && trav == list[d] && pre == At(list, d - 1)
      modifies this
      ensures Linked(first, nodes, list) && list == old(list)[..d] + old(list)[d + 1..] && count == |list|
      ensures next == At(old(list), d + 1) && SameParts(old(nodes), nodes)
    {
      hide Linked, SameParts;
      Unlink(first, nodes, list, d);
      LinkOf(first, nodes, list, d);
      if d > 0 {
        LinkOf(first, nodes, list, d - 1);
        Apart(first, nodes, list, d - 1, d);
      }
      count := count - 1;
      if pre == 0 {
        first := nodes[trav].next;
        nodes := nodes - {trav};
        next := first;
      } else {
        nodes := nodes[pre := nodes[pre].(next := nodes[trav].next)];
        nodes := nodes - {trav};
        next := nodes[pre].next;
      }
      list := list[..d] + list[d + 1..];
    }

    /** `disk_part_clear`: exactly the available partitions are left, in their order. */
    method Clear()
      requires Valid()
      modifies this
      ensures Valid() && list == Kept(old(nodes), old(list)) && SameParts(old(nodes), nodes)
    {
      hide Linked, NoTwins, SameParts, Kept, Swept;
      ghost var was, i := list, 0;
      ghost var done: seq<nat> := [];
      EndOf(first, nodes, list, 0);
      NothingElse(nodes);
      SweptNone(nodes, was);
      var trav, pre := first, 0;
      while trav != 0
        invariant 0 <= i <= |was| && Swept(old(nodes), was, list, i, done)
        invariant trav == At(was, i) && pre == At(done, |done| - 1) && count == |list|
        invariant Linked(first, nodes, list) && SameParts(old(nodes), nodes)
        decreases |was| - i
      {
        SweepFacts(old(nodes), first, nodes, was, list, i, done);
        if nodes[trav].available {
          pre := trav;
          trav := nodes[trav].next;
          done := done + [was[i]];
        } else {
          ghost var n := nodes;
          trav := Drop(trav, pre, |done|);
          SameUnlinked(old(nodes), n, nodes);
        }
        i := i + 1;
      }
      SweepEnd(old(nodes), first, nodes, was, list, i, done);
      NoNewTwins(old(nodes), nodes);
    }

    /** What the loaders do with one partition that they find: add it and make it available. */
    method Load(start: nat, size: nat, room: nat)
      requires Valid() && room !in nodes
      modifies this
      ensures Valid() && Loaded(old(nodes), nodes, start, size, room)
    {
      hide Linked, NoTwins, Has;
      ghost var n0 := nodes;
      var dp := Add(start, size, room);
      ghost var n1 := nodes;
      if dp != 0 {
        Flagged(first, nodes, list, dp, true);
        nodes := nodes[dp := nodes[dp].(available := true)];
      }
      Loading(n0, n1, nodes, start, size, room, dp, old(first));
    }

    /** `disk_part_scan`: `info` is whether the disk answers, `loaded` whether it has a partition table,
        `found` what is in it, `rooms` the memory for new partitions. */
    method Scan(info: bool, loaded: bool, found: seq<(nat, nat)>, rooms: seq<nat>) returns (ok: bool)
      requires Valid() && |rooms| == |found| && FreshRooms(nodes, rooms, 0)
      modifies this
      ensures Valid() && ok == (info && loaded)
      ensures !ok ==> SamePlaces(old(nodes), nodes) && forall a :: a in nodes ==> !nodes[a].available
      ensures ok ==> Rescanned(old(nodes), nodes, found, rooms)
    {
      hide Linked, NoTwins, SamePlaces, Marked, FreshRooms, Loaded, Rescanned, SameParts, Kept;
      ghost var n0 := nodes;
      Block();
      if !info || !loaded { return false; }
      FreshSame(n0, nodes, rooms);
      NothingMarked(n0, nodes, found, rooms);
      var i := 0;
      while i < |found|
        invariant i <= |found| == |rooms| && Valid() && FreshRooms(nodes, rooms, i)
                  && Marked(n0, nodes, found, rooms, i)
      {
        ghost var n := nodes;
        RoomFresh(nodes, rooms, i);
        Load(found[i].0, found[i].1, rooms[i]);
        Listed(first, nodes, list);
        FreshStep(n, nodes, rooms, i, found[i].0, found[i].1);
        MarkStep(n0, n, nodes, found, rooms, i);
        i := i + 1;
      }
      ghost var n, l := nodes, list;
      EndOf(first, nodes, list, 0);
      Clear();
      EndOf(first, nodes, list, 0);
      Listed(first, nodes, list);
      SweptMarks(n0, n, nodes, found, rooms, l, list);
      return true;
    }
  }

  lemma Found(nodes: Nodes, a: nat)
    requires a in nodes
    ensures Has(nodes, nodes[a].start, nodes[a].size)
  {
    assert Is(nodes[a], nodes[a].start, nodes[a].size);
  }

  lemma NotFound(nodes: Nodes, list: seq<nat>, start: nat, size: nat)
    requires (forall a :: a in nodes ==> a in list) && forall j :: 0 <= j < |list| ==>
                 list[j] in nodes && !Is(nodes[list[j]], start, size)
    ensures !Has(nodes, start, size)
  {
  }

  lemma NothingChanged(nodes: Nodes)
    ensures SamePlaces(nodes, nodes)
  {
  }

  // ---- sweeping

  /** Nothing but links differs, and nothing is new. */
  ghost predicate SameParts(nodes: Nodes, nodes': Nodes) {
    forall a :: a in nodes' ==> a in nodes && nodes'[a] == nodes[a].(next := nodes'[a].next)
  }

  lemma NothingElse(nodes: Nodes)
    ensures SameParts(nodes, nodes)
  {
  }

  lemma NoNewTwins(nodes: Nodes, nodes': Nodes)
    requires NoTwins(nodes) && SameParts(nodes, nodes')
    ensures NoTwins(nodes')
  {
  }

  lemma SameUnlinked(was: Nodes, nodes: Nodes, nodes': Nodes)
    requires SameParts(was, nodes) && SameParts(nodes, nodes')
    ensures SameParts(was, nodes')
  {
  }

  /** The sweep has come to position `i` of the old list and kept `done`. */
  ghost predicate Swept(n0: Nodes, was: seq<nat>, list: seq<nat>, i: nat, done: seq<nat>) {
    i <= |was| && done == Kept(n0, was[..i]) && list == done + was[i..]
  }

  lemma SweptNone(n0: Nodes, was: seq<nat>)
    ensures Swept(n0, was, was, 0, [])
  {
    assert was[..0] == [] && was[0..] == was;
  }

  /** What the sweep sees at position `i`, and where keeping or dropping that node leads. */
  lemma SweepFacts(n0: Nodes, first: nat, nodes: Nodes, was: seq<nat>, list: seq<nat>, i: nat, done: seq<nat>)
    requires Linked(first, nodes, list) && i < |was| && Swept(n0, was, list, i, done) && SameParts(n0, nodes)
    ensures var d := |done|;
            && d < |list| && list[d] == was[i] && was[i] in nodes && nodes[was[i]].next == At(was, i + 1)
            && At(list, d - 1) == At(done, d - 1) && At(list, d + 1) == At(was, i + 1)
            && (if nodes[was[i]].available then Swept(n0, was, list, i + 1, done + [was[i]])
                else Swept(n0, was, list[..d] + list[d + 1..], i + 1, done))
  {
    hide Linked, Kept;
    var d := |done|;
    assert list[d] == was[i..][0] == was[i];
    LinkOf(first, nodes, list, d);
    KeptStep(n0, nodes, was, i);
    assert was[i..] == [was[i]] + was[i + 1..];
    assert list == done + [was[i]] + was[i + 1..];
  }

  lemma Apart(first: nat, nodes: Nodes, list: seq<nat>, i: nat, j: nat)
    requires Linked(first, nodes, list) && i < j < |list|
    ensures list[i] != list[j]
  {
  }

  lemma KeptStep(n0: Nodes, nodes: Nodes, was: seq<nat>, i: nat)
    requires i < |was| && was[i] in nodes && SameParts(n0, nodes)
    ensures Kept(n0, was[..i + 1]) == Kept(n0, was[..i]) + (if nodes[was[i]].available then [was[i]] else [])
  {
    assert was[..i + 1][..i] == was[..i] && was[..i + 1][i] == was[i];
  }

  lemma SweepEnd(n0: Nodes, first: nat, nodes: Nodes, was: seq<nat>, list: seq<nat>, i: nat, done: seq<nat>)
    requires Linked(first, nodes, list) && Swept(n0, was, list, i, done) && At(was, i) == 0
    ensures list == Kept(n0, was)
  {
    hide Linked, Kept;
    EndOf(first, nodes, list, |done|);
    assert At(list, |done|) == At(was, i);
    assert was[..|was|] == was;
  }

  /** Unlinking and freeing the node at position `d`. */
  lemma Unlink(first: nat, nodes: Nodes, list: seq<nat>, d: nat)
    requires Linked(first, nodes, list) && d < |list|
    ensures list[d] in nodes && (d > 0 ==> list[d - 1] in nodes)
    ensures var next := nodes[list[d]].next;
            var n := if d == 0 then nodes else nodes[list[d - 1] := nodes[list[d - 1]].(next := next)];
            Linked(if d == 0 then next else first, n - {list[d]}, list[..d] + list[d + 1..])
                && SameParts(nodes, n - {list[d]})
  {
    LinkOf(first, nodes, list, d);
    if d > 0 { LinkOf(first, nodes, list, d - 1); }
    var next, l := nodes[list[d]].next, list[..d] + list[d + 1..];
    var n := if d == 0 then nodes else nodes[list[d - 1] := nodes[list[d - 1]].(next := next)];
    forall i | 0 <= i < |l| ensures LinkAt(n - {list[d]}, l, i) {
      var j := if i < d then i else i + 1;
      assert l[i] == list[j] && LinkAt(nodes, list, j);
      assert At(l, i + 1) == if i + 1 < d then At(list, i + 1) else At(list, i + 2);
    }
    forall a | a in n - {list[d]} ensures a in l {
      var j :| 0 <= j < |list| && list[j] == a;
      assert l[if j < d then j else j - 1] == a;
    }
    assert Distinct(l) by { assert forall i :: 0 <= i < |l| ==> l[i] == list[if i < d then i else i + 1]; }
    assert At(l, 0) == if d == 0 then At(list, 1) else list[0];
  }

  // ---- marking

  /** One partition loaded: it is there and available, unless it was not and there is no memory; the
      others are as before. */
  ghost predicate Loaded(nodes: Nodes, nodes': Nodes, start: nat, size: nat, room: nat) {
    && (forall a :: a in nodes ==> a in nodes' && Is(nodes'[a], nodes[a].start, nodes[a].size))
    && (forall a :: a in nodes' ==> a in nodes || (a == room && Is(nodes'[a], start, size)))
    && (forall a :: a in nodes' ==>
           nodes'[a].available == (Is(nodes'[a], start, size) || (a in nodes && nodes[a].available)))
    && (room != 0 ==> Has(nodes', start, size))
  }

  lemma Loading(n0: Nodes, n1: Nodes, n2: Nodes, start: nat, size: nat, room: nat, dp: nat, next: nat)
    requires NoTwins(n1) && room !in n0
    requires if dp == 0 then room == 0 && !Has(n0, start, size) && n1 == n0 && n2 == n1
             else dp in n1 && Is(n1[dp], start, size) && n2 == n1[dp := n1[dp].(available := true)]
    requires dp != 0 ==> n1 == n0 || n1 == n0[room := Part(start, size, false, next)]
    ensures Loaded(n0, n2, start, size, room)
  {
    if dp == 0 {
      forall a | a in n0 ensures !Is(n0[a], start, size) { assert Is(n0[a], start, size) ==> Has(n0, start, size); }
    } else {
      assert Is(n2[dp], start, size);
      assert forall a :: a in n1 && a != dp ==> !Is(n1[a], n1[dp].start, n1[dp].size);
    }
  }

  /** The memory for partitions `i` and on is not in use, and distinct. */
  ghost predicate FreshRooms(nodes: Nodes, rooms: seq<nat>, i: nat) {
    && (forall j :: i <= j < |rooms| ==> rooms[j] !in nodes)
    && (forall j, k :: 0 <= j < k < |rooms| && rooms[j] == rooms[k] ==> rooms[j] == 0)
    && 0 !in nodes
  }

  lemma FreshSame(n0: Nodes, nodes: Nodes, rooms: seq<nat>)
    requires FreshRooms(n0, rooms, 0) && SamePlaces(n0, nodes)
    ensures FreshRooms(nodes, rooms, 0)
  {
  }

  lemma RoomFresh(nodes: Nodes, rooms: seq<nat>, i: nat)
    requires FreshRooms(nodes, rooms, i) && i < |rooms|
    ensures rooms[i] !in nodes
  {
  }

  lemma FreshStep(n: Nodes, n': Nodes, rooms: seq<nat>, i: nat, start: nat, size: nat)
    requires FreshRooms(n, rooms, i) && i < |rooms| && Loaded(n, n', start, size, rooms[i]) && 0 !in n'
    ensures FreshRooms(n', rooms, i + 1)
  {
    forall j | i + 1 <= j < |rooms| ensures rooms[j] !in n' {
      assert rooms[j] == rooms[i] ==> rooms[i] == 0;
    }
  }

  ghost predicate InFound(p: Part, found: seq<(nat, nat)>, k: nat) {
    exists i :: 0 <= i < k <= |found| && Is(p, found[i].0, found[i].1)
  }

  /** After `k` partitions: what was there still is, what is new was found, and exactly what was found
      is available. */
  ghost predicate Marked(n0: Nodes, nodes: Nodes, found: seq<(nat, nat)>, rooms: seq<nat>, k: nat)
    requires k <= |found| == |rooms|
  {
    && (forall a :: a in n0 ==> a in nodes && Is(nodes[a], n0[a].start, n0[a].size))
    && (forall a :: a in nodes ==> (nodes[a].available <==> InFound(nodes[a], found, k)))
    && (forall i :: 0 <= i < k && rooms[i] != 0 ==> Has(nodes, found[i].0, found[i].1))
  }

  lemma NothingMarked(n0: Nodes, nodes: Nodes, found: seq<(nat, nat)>, rooms: seq<nat>)
    requires SamePlaces(n0, nodes) && (forall a :: a in nodes ==> !nodes[a].available) && |found| == |rooms|
    ensures Marked(n0, nodes, found, rooms, 0)
  {
  }

  lemma MarkStep(n0: Nodes, n: Nodes, n': Nodes, found: seq<(nat, nat)>, rooms: seq<nat>, k: nat)
    requires k < |found| == |rooms| && Marked(n0, n, found, rooms, k) && Loaded(n, n', found[k].0, found[k].1, rooms[k])
    ensures Marked(n0, n', found, rooms, k + 1)
  {
    forall a | a in n' ensures n'[a].available <==> InFound(n'[a], found, k + 1) {
      InFoundStep(n'[a], found, k);
      if a in n { SamePlace(n[a], n'[a], found, k); }
    }
    forall i | 0 <= i < k + 1 && rooms[i] != 0 ensures Has(n', found[i].0, found[i].1) {
      if i < k {
        var a :| a in n && Is(n[a], found[i].0, found[i].1);
        assert Is(n'[a], found[i].0, found[i].1);
      }
    }
  }

  lemma InFoundStep(p: Part, found: seq<(nat, nat)>, k: nat)
    requires k < |found|
    ensures InFound(p, found, k + 1) <==> InFound(p, found, k) || Is(p, found[k].0, found[k].1)
  {
  }

  lemma SamePlace(p: Part, q: Part, found: seq<(nat, nat)>, k: nat)
    requires Is(q, p.start, p.size)
    ensures InFound(p, found, k) <==> InFound(q, found, k)
  {
    if InFound(p, found, k) {
      var i :| 0 <= i < k <= |found| && Is(p, found[i].0, found[i].1);
      assert Is(q, found[i].0, found[i].1);
    }
    if InFound(q, found, k) {
      var i :| 0 <= i < k <= |found| && Is(q, found[i].0, found[i].1);
      assert Is(p, found[i].0, found[i].1);
    }
  }

  /** After a rescan: all partitions were found and are available; each one found is there, if it was or
      there was memory for it; those that were there keep their structures. */
  ghost predicate Rescanned(n0: Nodes, nodes: Nodes, found: seq<(nat, nat)>, rooms: seq<nat>)
    requires |found| == |rooms|
  {
    && (forall a :: a in nodes ==> nodes[a].available && InFound(nodes[a], found, |found|))
    && (forall i :: 0 <= i < |found| && (rooms[i] != 0 || Has(n0, found[i].0, found[i].1)) ==>
           Has(nodes, found[i].0, found[i].1))
    && (forall a :: a in n0 && InFound(n0[a], found, |found|) ==> a in nodes && Is(nodes[a], n0[a].start, n0[a].size))
  }

  lemma Listed(first: nat, nodes: Nodes, list: seq<nat>)
    requires Linked(first, nodes, list)
    ensures (forall a :: a in list <==> a in nodes) && 0 !in nodes
  {
    forall a | a in list ensures a in nodes && a != 0 {
      var i :| 0 <= i < |list| && list[i] == a;
      assert LinkAt(nodes, list, i);
    }
  }

  lemma SweptMarks(n0: Nodes, n: Nodes, nodes: Nodes, found: seq<(nat, nat)>, rooms: seq<nat>, l: seq<nat>,
      list: seq<nat>)
    requires |found| == |rooms| && Marked(n0, n, found, rooms, |found|) && (forall a :: a in n ==> a in l)
    requires list == Kept(n, l) && SameParts(n, nodes) && (forall a :: a in list <==> a in nodes)
    ensures Rescanned(n0, nodes, found, rooms)
  {
    hide Kept;
    forall a | a in nodes ensures nodes[a].available && InFound(nodes[a], found, |found|) {
      assert a in list;
      SamePlace(n[a], nodes[a], found, |found|);
    }
    forall a | a in n && InFound(n[a], found, |found|) ensures a in nodes && Is(nodes[a], n[a].start, n[a].size) {
      assert n[a].available && a in list;
    }
    forall i | 0 <= i < |found| && (rooms[i] != 0 || Has(n0, found[i].0, found[i].1))
      ensures Has(nodes, found[i].0, found[i].1)
    {
      assert Has(n, found[i].0, found[i].1) by {
        if Has(n0, found[i].0, found[i].1) {
          var a :| a in n0 && Is(n0[a], found[i].0, found[i].1);
          assert Is(n[a], found[i].0, found[i].1);
        }
      }
      var a :| a in n && Is(n[a], found[i].0, found[i].1);
      assert InFound(n[a], found, |found|);
      assert Is(nodes[a], found[i].0, found[i].1);
    }
    forall a | a in n0 && InFound(n0[a], found, |found|) ensures a in nodes && Is(nodes[a], n0[a].start, n0[a].size) {
      SamePlace(n0[a], n[a], found, |found|);
    }
  }
}
