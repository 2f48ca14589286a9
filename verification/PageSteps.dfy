/** The four kinds of write that mapping and unmapping are made of, and what each keeps.

    Every one of them changes exactly one slot of one address space (`OneSlot`), although it
    touches whole frames of physical memory and takes or gives back a frame. */
module PageSteps {
  import opened Lists
  import opened PageBitmap
  import opened PageTables

  /** Write entry `i` of the table named by `n`. */
  function Write(s: Space, n: Node, i: nat, e: Entry): Space {
    match Table(s.mem, n)
    case None => s
    case Some(f) => s.(mem := SetWord(s.mem, f, i, e))
  }

  /** Hang the zeroed frame `g` below slot `i` of `n` and mark it as allocated. */
  function Grow(s: Space, n: Node, i: nat, g: Frame, flags: set<Flag>): Space {
    match Table(s.mem, n)
    case None => s
    case Some(f) =>
      s.(mem := SetWord(s.mem, f, i, Entry(g, flags))[g := ZeroTable()], pm := s.pm.Mark(g, 1, true))
  }

  /** Give back one frame; a frame that is not allocated from the bitmap is left alone. */
  function FreeOne(b: Bitmap, f: Frame): (r: Bitmap)
    ensures b.Valid() ==> r.Valid()
  {
    if b.IsUsed(f) then b.Mark(f, 1, false) else b
  }

  /** Unhook the table below slot `i` of `n` and give its frame back. */
  function Prune(s: Space, n: Node, i: nat): (t: Space)
    ensures s.pm.Valid() ==> t.pm.Valid()
  {
    Write(s, n, i, ZERO).(pm := FreeOne(s.pm, Slot(s.mem, n, i).frame))
  }

  /** `WF` and `OneSlot` after a step, with the tables it leaves in place. */
  ghost predicate Stepped(s: Space, t: Space, n: Node, i: nat, e: Entry) {
    && t.WF()
    && t.cr3 == s.cr3 && t.tasks == s.tasks
    && t.pm.base == s.pm.base && t.pm.usable == s.pm.usable && |t.pm.bits| == |s.pm.bits|
    && OneSlot(s, t.mem, n, i, e)
    && (forall m :: s.InTree(m) && m != Sub(n, i) ==> Table(t.mem, m) == Table(s.mem, m))
    && Undisturbed(s, t)
  }

  /** Frames that hold no table keep their contents, their allocation, and hold no table. */
  ghost predicate Undisturbed(s: Space, t: Space) {
    s.pm.Valid() && t.pm.Valid() && forall f: nat :: s.Foreign(f) ==> t.Foreign(f) && t.mem[f] == s.mem[f]
  }

  lemma UndisturbedTrans(s: Space, t: Space, u: Space)
    requires Undisturbed(s, t) && Undisturbed(t, u)
    ensures Undisturbed(s, u)
  {
  }

  lemma UndisturbedSelf(s: Space)
    requires s.WF()
    ensures Undisturbed(s, s)
  {
  }

  /** The same PML4 is loaded and the same PML4s exist. */
  ghost predicate SameRoots(s: Space, t: Space) {
    t.cr3 == s.cr3 && forall f: nat :: s.IsRoot(f) == t.IsRoot(f)
  }

  lemma SameTree(s: Space, t: Space)
    requires SameRoots(s, t)
    ensures forall n :: s.InTree(n) == t.InTree(n)
    ensures forall n, i :: s.HasSlot(n, i) == t.HasSlot(n, i)
  {
    forall n ensures s.InTree(n) == t.InTree(n) { SameTreeAt(s, t, n); }
  }

  lemma {:induction false} SameTreeAt(s: Space, t: Space, n: Node)
    requires SameRoots(s, t)
    ensures s.InTree(n) == t.InTree(n)
  {
    if n.Sub? { SameTreeAt(s, t, n.parent); }
  }

  /** What a write does to one node: the table hanging below the slot may change to `c`, and only
      slot `i` of `n` changes. */
  ghost predicate Effect(s: Space, mem: Mem, n: Node, i: nat, e: Entry, c: Option<Frame>, m: Node) {
    && Table(mem, m) == (if m == Sub(n, i) then c else Table(s.mem, m))
    && forall j: nat :: Slot(mem, m, j) == if m == n && j == i then e else Slot(s.mem, m, j)
  }

  /** The effect is known at every node, and the frames that changed hands are accounted for. */
  ghost predicate EffectEverywhere(s: Space, t: Space, n: Node, i: nat, e: Entry, c: Option<Frame>) {
    && s.WF() && s.HasSlot(n, i)
    && t.cr3 == s.cr3 && t.tasks == s.tasks && t.pm.Valid()
    && t.pm.base == s.pm.base && t.pm.usable == s.pm.usable
    && (forall m :: s.InTree(m) ==> Effect(s, t.mem, n, i, e, c, m))
    && EntryOk(e, n.Depth())
    && (forall f: nat :: IsFrame(s.mem, f) ==> IsFrame(t.mem, f))
    && (forall f: nat :: t.pm.IsFree(f) ==> s.pm.IsFree(f) || Table(s.mem, Sub(n, i)) == Some(f))
    && (c.Some? && Table(s.mem, Sub(n, i)) != c ==> s.pm.IsFree(c.value))
    && (c.Some? ==> IsFrame(t.mem, c.value) && !t.pm.IsFree(c.value))
    && (n.Depth() < 3 || t.pm == s.pm)
    && (forall f: nat :: s.Foreign(f) ==> f in t.mem && t.mem[f] == s.mem[f])
  }

  lemma EffectTables(s: Space, t: Space, n: Node, i: nat, e: Entry, c: Option<Frame>)
    requires EffectEverywhere(s, t, n, i, e, c)
    ensures forall m :: t.InTree(m) && Table(t.mem, m).Some? ==>
              IsFrame(t.mem, Table(t.mem, m).value) && !t.pm.IsFree(Table(t.mem, m).value)
    ensures forall m, k :: t.InTree(m) && t.InTree(k) && Table(t.mem, m).Some? && Table(t.mem, m) == Table(t.mem, k)
              ==> m == k
    ensures forall f: nat :: s.Foreign(f) ==> t.Foreign(f)
  {
    SameTree(s, t);
    assert n.Depth() < 3 ==> s.InTree(Sub(n, i));
    forall m | t.InTree(m) && Table(t.mem, m).Some?
      ensures IsFrame(t.mem, Table(t.mem, m).value) && !t.pm.IsFree(Table(t.mem, m).value)
    {
      assert s.InTree(m) && Effect(s, t.mem, n, i, e, c, m);
    }
    forall m, k | t.InTree(m) && t.InTree(k) && Table(t.mem, m).Some? && Table(t.mem, m) == Table(t.mem, k)
      ensures m == k
    {
      assert s.InTree(m) && Effect(s, t.mem, n, i, e, c, m);
      assert s.InTree(k) && Effect(s, t.mem, n, i, e, c, k);
    }
    forall f: nat | s.Foreign(f) ensures t.Foreign(f) {
      forall m | t.InTree(m) ensures Table(t.mem, m) != Some(f) {
        assert s.InTree(m) && Effect(s, t.mem, n, i, e, c, m);
      }
      assert n.Depth() < 3 ==> Table(s.mem, Sub(n, i)) != Some(f);
    }
  }

  /** A write whose effect is known at every node keeps the tables well formed. */
  lemma FromEffect(s: Space, t: Space, n: Node, i: nat, e: Entry, c: Option<Frame>)
    requires EffectEverywhere(s, t, n, i, e, c)
    ensures Stepped(s, t, n, i, e)
  {
    SameTree(s, t);
    EffectTables(s, t, n, i, e, c);
    hide PageTables.Space.NotTable;
    forall m, j: nat | s.InTree(m)
      ensures Slot(t.mem, m, j) == if m == n && j == i then e else Slot(s.mem, m, j)
    {
      assert Effect(s, t.mem, n, i, e, c, m);
    }
    forall m, j: nat | t.HasSlot(m, j) ensures EntryOk(Slot(t.mem, m, j), m.Depth()) {
      assert s.InTree(m) && s.HasSlot(m, j);
    }
    forall r: nat | t.IsRoot(r)
      ensures IsTable(Word(t.mem, r, WINDOW)) && Word(t.mem, r, WINDOW).frame == r
    {
      assert s.InTree(Top(r)) && Slot(t.mem, Top(r), WINDOW) == Slot(s.mem, Top(r), WINDOW);
    }
    forall m | s.InTree(m) && m != Sub(n, i) ensures Table(t.mem, m) == Table(s.mem, m) {
      assert Effect(s, t.mem, n, i, e, c, m);
    }
  }

  /** Changing the flags of an entry that stays a table pointer moves no table. */
  lemma {:induction false} RetagAt(s: Space, n: Node, i: nat, e: Entry, m: Node)
    requires s.WF() && s.HasSlot(n, i) && s.InTree(m)
    requires IsTable(Slot(s.mem, n, i)) && IsTable(e) && e.frame == Slot(s.mem, n, i).frame
    ensures Effect(s, Write(s, n, i, e).mem, n, i, e, Table(s.mem, Sub(n, i)), m)
  {
    if m == Sub(n, i) || Below(m, Sub(n, i)) {
      RetagAt(s, n, i, e, m.parent);
    } else {
      StoreElsewhere(s, n, i, e, m);
    }
  }

  lemma Retag(s: Space, n: Node, i: nat, e: Entry)
    requires s.WF() && s.HasSlot(n, i) && n.Depth() < 3
    requires IsTable(Slot(s.mem, n, i)) && IsTable(e) && e.frame == Slot(s.mem, n, i).frame
    ensures Stepped(s, Write(s, n, i, e), n, i, e)
    ensures Write(s, n, i, e).pm == s.pm
  {
    forall m | s.InTree(m) ensures Effect(s, Write(s, n, i, e).mem, n, i, e, Table(s.mem, Sub(n, i)), m) {
      RetagAt(s, n, i, e, m);
    }
    assert s.InTree(Sub(n, i));
    FromEffect(s, Write(s, n, i, e), n, i, e, Table(s.mem, Sub(n, i)));
  }

  /** Writing a last-level entry. */
  lemma SetLeaf(s: Space, n: Node, i: nat, e: Entry)
    requires s.WF() && s.HasSlot(n, i) && n.Depth() == 3 && Table(s.mem, n).Some? && EntryOk(e, 3)
    ensures Stepped(s, Write(s, n, i, e), n, i, e)
    ensures Write(s, n, i, e).pm == s.pm
  {
    var t := Write(s, n, i, e);
    forall m | s.InTree(m) ensures Effect(s, t.mem, n, i, e, None, m) {
      NotBelowLeaf(s, m, Sub(n, i));
      StoreElsewhere(s, n, i, e, m);
    }
    FromEffect(s, t, n, i, e, None);
  }

  lemma {:induction false} NotBelowLeaf(s: Space, m: Node, c: Node)
    requires s.InTree(m) && c.Depth() > 3
    ensures m != c && !Below(m, c) && m.Depth() <= 3
  {
    if m.Sub? { NotBelowLeaf(s, m.parent, c); }
  }

  /** Below a table of zeros there is nothing. */
  lemma {:induction false} NothingBelow(mem: Mem, c: Node, m: Node)
    requires Below(m, c) && forall j: nat :: Slot(mem, c, j) == ZERO
    ensures Table(mem, m) == None && forall j: nat :: Slot(mem, m, j) == ZERO
  {
    if m.parent != c { NothingBelow(mem, c, m.parent); }
  }

  /** A node is not below its own child. */
  lemma {:induction false} NotBelowSelf(n: Node, c: Node)
    requires c.Depth() > n.Depth()
    ensures n != c && !Below(n, c)
  {
    if n.Sub? { NotBelowSelf(n.parent, c); }
  }

  /** Replacing a slot under which every table is empty, before and after. */
  lemma HangAt(s: Space, n: Node, i: nat, e: Entry, c: Option<Frame>, m: Node)
    requires s.WF() && s.HasSlot(n, i) && s.InTree(m) && Table(s.mem, n).Some?
    requires forall j: nat :: Slot(s.mem, Sub(n, i), j) == ZERO
    requires c == if IsTable(e) then Some(e.frame) else None
    requires c.Some? ==> c != Table(s.mem, n) && forall j: nat :: Word(s.mem, c.value, j) == ZERO
    ensures Effect(s, Write(s, n, i, e).mem, n, i, e, c, m)
  {
    var b := Sub(n, i);
    var mem := Write(s, n, i, e).mem;
    if m == b || Below(m, b) {
      NotBelowSelf(n, b);
      StoreElsewhere(s, n, i, e, n);
      assert Slot(mem, n, i) == e && Table(mem, b) == c;
      assert c.Some? ==> forall j: nat :: Word(mem, c.value, j) == Word(s.mem, c.value, j);
      assert forall j: nat :: Slot(mem, b, j) == ZERO;
      if m != b {
        NothingBelow(mem, b, m);
        NothingBelow(s.mem, b, m);
      }
    } else {
      StoreElsewhere(s, n, i, e, m);
    }
  }

  lemma Growing(s: Space, n: Node, i: nat, g: Frame, flags: set<Flag>)
    requires s.WF() && s.HasSlot(n, i) && n.Depth() < 3 && Table(s.mem, n).Some?
    requires Slot(s.mem, n, i) == ZERO && s.pm.IsFree(g) && IsTable(Entry(g, flags))
    ensures Stepped(s, Grow(s, n, i, g, flags), n, i, Entry(g, flags))
    ensures Table(Grow(s, n, i, g, flags).mem, Sub(n, i)) == Some(g)
  {
    var t, e := Grow(s, n, i, g, flags), Entry(g, flags);
    var z := s.(mem := s.mem[g := ZeroTable()]);
    ZeroFree(s, g);
    assert t.mem == Write(z, n, i, e).mem;
    SameTree(s, z);
    forall m | s.InTree(m) ensures Effect(s, t.mem, n, i, e, Some(g), m) {
      HangAt(z, n, i, e, Some(g), m);
      assert forall j: nat :: Slot(z.mem, m, j) == Slot(s.mem, m, j);
    }
    assert Table(s.mem, Sub(n, i)) == None && s.InTree(Sub(n, i));
    FromEffect(s, t, n, i, e, Some(g));
    assert Effect(s, t.mem, n, i, e, Some(g), Sub(n, i));
  }

  /** Clearing a free frame disturbs nothing. */
  lemma ZeroFree(s: Space, g: Frame)
    requires s.WF() && s.pm.IsFree(g)
    ensures s.(mem := s.mem[g := ZeroTable()]).WF()
    ensures forall m :: s.InTree(m) ==> Table(s.mem[g := ZeroTable()], m) == Table(s.mem, m)
    ensures forall m, j: nat :: s.InTree(m) ==> Slot(s.mem[g := ZeroTable()], m, j) == Slot(s.mem, m, j)
  {
    var z := s.(mem := s.mem[g := ZeroTable()]);
    SameTree(s, z);
    forall m | s.InTree(m)
      ensures Table(z.mem, m) == Table(s.mem, m)
      ensures forall j: nat :: Slot(z.mem, m, j) == Slot(s.mem, m, j)
    {
      ForeignFrame(s, g, ZeroTable(), m);
    }
    forall r: nat | z.IsRoot(r) ensures Word(z.mem, r, WINDOW) == Word(s.mem, r, WINDOW) {
      assert s.InTree(Top(r)) && Table(s.mem, Top(r)) == Some(r);
    }
    forall m, j: nat | z.HasSlot(m, j) ensures EntryOk(Slot(z.mem, m, j), m.Depth()) {
      assert s.InTree(m) && s.HasSlot(m, j);
    }
  }

  lemma Pruning(s: Space, n: Node, i: nat)
    requires s.WF() && s.HasSlot(n, i) && n.Depth() < 3
    requires IsTable(Slot(s.mem, n, i)) && s.AllZero(Sub(n, i))
    ensures Stepped(s, Prune(s, n, i), n, i, ZERO)
    ensures Table(Prune(s, n, i).mem, Sub(n, i)) == None
  {
    hide EffectEverywhere, Stepped, PageTables.Space.WF;
    var t := Prune(s, n, i);
    PruneEffect(s, n, i);
    FromEffect(s, t, n, i, ZERO, None);
    EffectThere(s, t, n, i, ZERO, None);
  }

  lemma EffectThere(s: Space, t: Space, n: Node, i: nat, e: Entry, c: Option<Frame>)
    requires EffectEverywhere(s, t, n, i, e, c) && n.Depth() < 3
    ensures Table(t.mem, Sub(n, i)) == c
  {
    assert s.InTree(Sub(n, i));
    assert Effect(s, t.mem, n, i, e, c, Sub(n, i));
  }

  lemma PruneEffect(s: Space, n: Node, i: nat)
    requires s.WF() && s.HasSlot(n, i) && n.Depth() < 3
    requires IsTable(Slot(s.mem, n, i)) && s.AllZero(Sub(n, i))
    ensures EffectEverywhere(s, Prune(s, n, i), n, i, ZERO, None)
  {
    hide Effect, PageTables.Space.WF, PageTables.Space.AllZero, Table, Slot;
    WFPm(s);
    forall m | s.InTree(m) ensures Effect(s, Prune(s, n, i).mem, n, i, ZERO, None, m) { PruneAt(s, n, i, m); }
    PruneFrames(s, n, i);
  }

  lemma PruneAt(s: Space, n: Node, i: nat, m: Node)
    requires s.WF() && s.HasSlot(n, i) && n.Depth() < 3 && s.InTree(m)
    requires IsTable(Slot(s.mem, n, i)) && s.AllZero(Sub(n, i))
    ensures Effect(s, Prune(s, n, i).mem, n, i, ZERO, None, m)
  {
    hide Effect;
    assert s.InTree(Sub(n, i));
    HangAt(s, n, i, ZERO, None, m);
  }

  lemma PruneFrames(s: Space, n: Node, i: nat)
    requires s.pm.Valid() && IsTable(Slot(s.mem, n, i))
    ensures var t := Prune(s, n, i);
            && t.cr3 == s.cr3 && t.tasks == s.tasks && t.pm.base == s.pm.base && t.pm.usable == s.pm.usable
            && (forall f: nat :: IsFrame(s.mem, f) ==> IsFrame(t.mem, f))
            && (forall f: nat :: t.pm.IsFree(f) ==> s.pm.IsFree(f) || Table(s.mem, Sub(n, i)) == Some(f))
  {
    var t := Prune(s, n, i);
    forall f: nat | t.pm.IsFree(f) ensures s.pm.IsFree(f) || Table(s.mem, Sub(n, i)) == Some(f) {
      assert !t.pm.IsUsed(f);
    }
  }
}
