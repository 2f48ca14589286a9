/** Walking the partitions of all disks (`disk_next`, kernel/core/disk/disk.c). A disk is the list of
    its partitions' flags. */
module DiskWalk {
  import opened Lists

  type Disks = seq<seq<bool>>

  /** Partition `part` of disk `disk`. */
  datatype Place = Place(disk: nat, part: nat)

  predicate On(ds: Disks, p: Place) { p.disk < |ds| && p.part < |ds[p.disk]| }

  /** The first partition of the first disk from `d` on that has any. */
  function FirstFrom(ds: Disks, d: nat): (r: Option<Place>)
    requires d <= |ds|
    ensures r.Some? ==> On(ds, r.value) && r.value.disk >= d
    decreases |ds| - d
  {
    if d == |ds| then None else if ds[d] != [] then Some(Place(d, 0)) else FirstFrom(ds, d + 1)
  }

  /** The next partition on the same disk, or the first on a later one; the first of all at the start. */
  function Successor(ds: Disks, pre: Option<Place>): (r: Option<Place>)
    requires pre.Some? ==> On(ds, pre.value)
    ensures r.Some? ==> On(ds, r.value)
  {
    match pre
    case None => FirstFrom(ds, 0)
    case Some(p) => if p.part + 1 < |ds[p.disk]| then Some(Place(p.disk, p.part + 1)) else FirstFrom(ds, p.disk + 1)
  }

  /** Partitions from disk `d` on. */
  function Left(ds: Disks, d: nat): nat
    requires d <= |ds|
    decreases |ds| - d
  {
    if d == |ds| then 0 else |ds[d]| + Left(ds, d + 1)
  }

  /** Partitions after a place. */
  function After(ds: Disks, pre: Option<Place>): nat
    requires pre.Some? ==> On(ds, pre.value)
  {
    match pre
    case None => Left(ds, 0)
    case Some(p) => |ds[p.disk]| - p.part - 1 + Left(ds, p.disk + 1)
  }

  lemma {:induction false} FirstLeft(ds: Disks, d: nat)
    requires d <= |ds|
    ensures var r := FirstFrom(ds, d); if r.Some? then After(ds, r) + 1 == Left(ds, d) else Left(ds, d) == 0
    decreases |ds| - d
  {
    if d < |ds| && ds[d] == [] { FirstLeft(ds, d + 1); }
  }

  /** Each step leaves one partition fewer. */
  lemma Closer(ds: Disks, pre: Option<Place>)
    requires pre.Some? ==> On(ds, pre.value)
    ensures var r := Successor(ds, pre); if r.Some? then After(ds, r) + 1 == After(ds, pre) else After(ds, pre) == 0
  {
    if pre == None {
      FirstLeft(ds, 0);
    } else if pre.value.part + 1 == |ds[pre.value.disk]| {
      FirstLeft(ds, pre.value.disk + 1);
    }
  }

  /** `disk_next` */
  function Next(ds: Disks, pre: Option<Place>): (r: Option<Place>)
    requires pre.Some? ==> On(ds, pre.value)
    ensures r.Some? ==> On(ds, r.value) && ds[r.value.disk][r.value.part] && After(ds, r) < After(ds, pre)
    decreases After(ds, pre)
  {
    Closer(ds, pre);
    var f := Successor(ds, pre);
    if f == None || ds[f.value.disk][f.value.part] then f else Next(ds, f)
  }

  /** All that calling it again and again visits. */
  function Walk(ds: Disks, pre: Option<Place>): seq<Place>
    requires pre.Some? ==> On(ds, pre.value)
    decreases After(ds, pre)
  {
    var n := Next(ds, pre);
    if n == None then [] else [n.value] + Walk(ds, n)
  }

  // ---- what it should visit

  /** The available partitions of disk `d` from number `i` on. */
  function OnDisk(ds: Disks, d: nat, i: nat): seq<Place>
    requires d < |ds| && i <= |ds[d]|
    decreases |ds[d]| - i
  {
    if i == |ds[d]| then [] else (if ds[d][i] then [Place(d, i)] else []) + OnDisk(ds, d, i + 1)
  }

  /** Those of all disks from `d` on, disk by disk. */
  function All(ds: Disks, d: nat): seq<Place>
    requires d <= |ds|
    decreases |ds| - d
  {
    if d == |ds| then [] else OnDisk(ds, d, 0) + All(ds, d + 1)
  }

  /** Those after a place. */
  function Rest(ds: Disks, pre: Option<Place>): seq<Place>
    requires pre.Some? ==> On(ds, pre.value)
  {
    match pre
    case None => All(ds, 0)
    case Some(p) => OnDisk(ds, p.disk, p.part + 1) + All(ds, p.disk + 1)
  }

  /** What `All` lists: every available partition, and nothing else. */
  lemma {:induction false} AllHas(ds: Disks, d: nat, p: Place)
    requires d <= |ds|
    ensures p in All(ds, d) <==> p.disk >= d && On(ds, p) && ds[p.disk][p.part]
    decreases |ds| - d
  {
    if d < |ds| {
      OnDiskHas(ds, d, 0, p);
      AllHas(ds, d + 1, p);
    }
  }

  lemma {:induction false} OnDiskHas(ds: Disks, d: nat, i: nat, p: Place)
    requires d < |ds| && i <= |ds[d]|
    ensures p in OnDisk(ds, d, i) <==> p.disk == d && i <= p.part < |ds[d]| && ds[d][p.part]
    decreases |ds[d]| - i
  {
    if i < |ds[d]| { OnDiskHas(ds, d, i + 1, p); }
  }

  /** The place itself, if its partition is available. */
  function Here(ds: Disks, p: Place): seq<Place>
    requires On(ds, p)
  {
    if ds[p.disk][p.part] then [p] else []
  }

  lemma OnDiskStep(ds: Disks, d: nat, i: nat)
    requires d < |ds| && i <= |ds[d]|
    ensures OnDisk(ds, d, i) == if i == |ds[d]| then [] else Here(ds, Place(d, i)) + OnDisk(ds, d, i + 1)
  {
  }

  lemma RestAt(ds: Disks, d: nat, i: nat)
    requires d < |ds| && i < |ds[d]|
    ensures OnDisk(ds, d, i) + All(ds, d + 1) == Here(ds, Place(d, i)) + Rest(ds, Some(Place(d, i)))
  {
    hide OnDisk, All, Here;
    OnDiskStep(ds, d, i);
    var x, a, b := Here(ds, Place(d, i)), OnDisk(ds, d, i + 1), All(ds, d + 1);
    assert (x + a) + b == x + (a + b);
  }

  lemma {:induction false} AllFrom(ds: Disks, d: nat)
    requires d <= |ds|
    ensures var f := FirstFrom(ds, d); All(ds, d) == if f == None then [] else Here(ds, f.value) + Rest(ds, f)
    decreases |ds| - d
  {
    hide OnDisk, Here, Rest;
    if d < |ds| {
      if ds[d] == [] {
        OnDiskStep(ds, d, 0);
        AllFrom(ds, d + 1);
      } else {
        RestAt(ds, d, 0);
      }
    }
  }

  lemma RestStep(ds: Disks, pre: Option<Place>)
    requires pre.Some? ==> On(ds, pre.value)
    ensures var f := Successor(ds, pre); Rest(ds, pre) == if f == None then [] else Here(ds, f.value) + Rest(ds, f)
  {
    hide OnDisk, All, Here;
    match pre {
      case None => AllFrom(ds, 0);
      case Some(p) =>
        OnDiskStep(ds, p.disk, p.part + 1);
        if p.part + 1 == |ds[p.disk]| {
          assert Rest(ds, pre) == All(ds, p.disk + 1);
          AllFrom(ds, p.disk + 1);
        } else {
          RestAt(ds, p.disk, p.part + 1);
        }
    }
  }

  lemma {:induction false} NextIsFirst(ds: Disks, pre: Option<Place>)
    requires pre.Some? ==> On(ds, pre.value)
    ensures var n := Next(ds, pre); Rest(ds, pre) == if n == None then [] else [n.value] + Rest(ds, n)
    decreases After(ds, pre)
  {
    Closer(ds, pre);
    RestStep(ds, pre);
    var f := Successor(ds, pre);
    if f.Some? && !ds[f.value.disk][f.value.part] { NextIsFirst(ds, f); }
  }

  /** From the start, the walk visits every available partition of every disk once, in order, and
      ends. */
  lemma {:induction false} WalksAll(ds: Disks, pre: Option<Place>)
    requires pre.Some? ==> On(ds, pre.value)
    ensures Walk(ds, pre) == Rest(ds, pre)
    decreases After(ds, pre)
  {
    NextIsFirst(ds, pre);
    var n := Next(ds, pre);
    if n.Some? { WalksAll(ds, n); }
  }

  predicate Before(p: Place, q: Place) { p.disk < q.disk || (p.disk == q.disk && p.part < q.part) }

  predicate Ascending(s: seq<Place>) { forall i, j :: 0 <= i < j < |s| ==> Before(s[i], s[j]) }

  lemma {:induction false} OnDiskAscends(ds: Disks, d: nat, i: nat)
    requires d < |ds| && i <= |ds[d]|
    ensures Ascending(OnDisk(ds, d, i))
    decreases |ds[d]| - i
  {
    if i < |ds[d]| {
      OnDiskAscends(ds, d, i + 1);
      forall p | p in OnDisk(ds, d, i + 1) ensures Before(Place(d, i), p) { OnDiskHas(ds, d, i + 1, p); }
    }
  }

  lemma {:induction false} AllAscends(ds: Disks, d: nat)
    requires d <= |ds|
    ensures Ascending(All(ds, d))
    decreases |ds| - d
  {
    if d < |ds| {
      OnDiskAscends(ds, d, 0);
      AllAscends(ds, d + 1);
      forall p, q | p in OnDisk(ds, d, 0) && q in All(ds, d + 1) ensures Before(p, q) {
        OnDiskHas(ds, d, 0, p);
        AllHas(ds, d + 1, q);
      }
    }
  }

  /** The same without the reference list. */
  lemma VisitsOnce(ds: Disks)
    ensures Ascending(Walk(ds, None))
    ensures forall p: Place :: p in Walk(ds, None) <==> On(ds, p) && ds[p.disk][p.part]
  {
    WalksAll(ds, None);
    AllAscends(ds, 0);
    forall p: Place ensures p in Walk(ds, None) <==> On(ds, p) && ds[p.disk][p.part] { AllHas(ds, 0, p); }
  }
}
