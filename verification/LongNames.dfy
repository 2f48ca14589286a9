/** Directory entries of a FAT file system and how the kernel puts long names together again
    (kernel/fs/fat32/entry.c). */
module LongNames {
  type byte = x: nat | x < 256
  type word = x: nat | x < 65536

  const CHARS := 13
  const NAME_MAX := 255
  const UNUSED := 0xe5

  /** A long-name entry with its 13 characters, in the three groups of 5, 6 and 2 that it holds them
      in, or any other entry with its 11-byte name. */
  datatype Entry = Lfn(order: byte, chars: seq<word>) | Short(name: seq<byte>) {
    predicate Formed() { if Lfn? then |chars| == CHARS else |name| == 11 }

    /** The first byte tells unused entries and the end of the directory. */
    function First(): byte { if Lfn? then order else if name == [] then 0 else name[0] }

    predicate Used() { First() != UNUSED }
  }

  datatype Outcome = Done(count: nat) | TooLong | Overflow | OutOfRange

  /** The outcome, the caller's buffer and the position of the cursor. */
  datatype Read = Read(outcome: Outcome, buf: seq<byte>, at: nat)

  // ---- one long-name entry

  /** The character ends a name. */
  predicate Ends(c: word) { c % 256 == 0 || c % 256 == 0xff }

  /** The characters of a group up to the first that is 0 or 0xff. */
  function Group(s: seq<word>): (t: seq<byte>)
    ensures |t| <= |s|
  {
    if s == [] || Ends(s[0]) then [] else [s[0] % 256] + Group(s[1..])
  }

  /** `__fat32_lfn_read` */
  function Text(chars: seq<word>): (t: seq<byte>)
    requires |chars| == CHARS
    ensures |t| <= CHARS
  {
    Group(chars[..5]) + Group(chars[5..11]) + Group(chars[11..])
  }

  /** `__fat32_lfn_calc_size`: the length of the whole name, told from its last part. */
  function Total(order: byte, last: nat): nat {
    if order / 64 % 2 == 0 || order % 32 == 0 then 0 else (order % 32 - 1) * CHARS + last
  }

  // ---- the whole name

  function Check(s: nat, size: nat): Outcome {
    if s > NAME_MAX then TooLong else if s > size then Overflow else Done(s)
  }

  /** Append one byte at `index`. */
  function Append(buf: seq<byte>, index: nat, c: byte): (r: (Outcome, seq<byte>))
    ensures |r.1| == |buf| && (r.0.Done? ==> r.0 == Done(index + 1))
  {
    var check := Check(index + 1, |buf|);
    if check.Done? then (check, buf[index := c]) else (check, buf)
  }

  /** An 8.3 name from position `i` on: up to the first space, with a dot before position 8. */
  function ShortName(name: seq<byte>, i: nat, buf: seq<byte>, index: nat): (r: (Outcome, seq<byte>))
    requires i <= |name|
    ensures |r.1| == |buf|
    decreases |name| - i
  {
    if i == |name| || name[i] == 0x20 then Append(buf, index, 0)
    else
      var (d, b) := if i == 8 then Append(buf, index, '.' as int) else (Done(index), buf);
      if !d.Done? then (d, b)
      else
        var (e, c) := Append(b, d.count, name[i]);
        if e.Done? then ShortName(name, i + 1, c, e.count) else (e, c)
  }

  /** First used entry from `i` on; the end of the directory has first byte 0. */
  function NextUsed(dir: seq<Entry>, i: nat): (j: nat)
    requires i <= |dir|
    ensures i <= j <= |dir| && (j < |dir| ==> dir[j].Used())
    ensures forall k :: i <= k < j ==> !dir[k].Used()
    decreases |dir| - i
  {
    if i == |dir| || dir[i].Used() then i else NextUsed(dir, i + 1)
  }

  /** `__fat32_entry_name` at entry `at`. Index arithmetic is in 16 bits. */
  function Name(dir: seq<Entry>, at: nat, total: nat, index: nat, buf: seq<byte>): (r: Read)
    requires at < |dir| && forall i :: 0 <= i < |dir| ==> dir[i].Formed()
    ensures |r.buf| == |buf|
    decreases |dir| - at
  {
    assert dir[at].Formed();
    if dir[at].Short? then
      var (o, b) := if index != 0 then Append(buf, index, 0) else ShortName(dir[at].name, 0, buf, 0);
      Read(o, b, at)
    else
      var text := Text(dir[at].chars);
      var total1 := if total == 0 then Total(dir[at].order, |text|) else total;
      var index1 := if total == 0 then total1 else index;
      if total1 == 0 then Onward(dir, at, total1, index1, buf)
      else
        var index2 := (index1 + 65536 - |text|) % 65536;
        var check := Check(index2 + |text|, |buf|);
        if check.Done? then
          Onward(dir, at, total1, if index2 == 0 then total1 else index2, buf[..index2] + text + buf[index2 + |text|..])
        else Read(check, buf, at)
  }

  function Onward(dir: seq<Entry>, at: nat, total: nat, index: nat, buf: seq<byte>): (r: Read)
    requires at < |dir| && forall i :: 0 <= i < |dir| ==> dir[i].Formed()
    ensures |r.buf| == |buf|
    decreases |dir| - at, 0
  {
    var next := NextUsed(dir, at + 1);
    if next == |dir| || dir[next].First() == 0 then Read(OutOfRange, buf, next)
    else Name(dir, next, total, index, buf)
  }

  // ---- how names are stored (section 7 of the Microsoft FAT Specification, 2005)

  function Count(name: seq<byte>): nat { (|name| + CHARS - 1) / CHARS }

  function PartEnd(name: seq<byte>, k: nat): (e: nat)
    ensures e <= |name|
  {
    if CHARS * k < |name| then CHARS * k else |name|
  }

  /** Part `k` of the name, counted from 1. */
  function Part(name: seq<byte>, k: nat): seq<byte>
    requires 1 <= k <= Count(name)
  {
    name[CHARS * (k - 1)..PartEnd(name, k)]
  }

  /** A part, ended by 0 and filled up with 0xffff if it is short. */
  function Padded(part: seq<byte>): (s: seq<word>)
    requires |part| <= CHARS
    ensures |s| == CHARS
    ensures forall i :: 0 <= i < CHARS ==> s[i] == PadAt(part, i)
  {
    seq(CHARS, i requires 0 <= i < CHARS => PadAt(part, i))
  }

  function PadAt(part: seq<byte>, i: nat): word { if i < |part| then part[i] else if i == |part| then 0 else 0xffff }

  function Stored(name: seq<byte>, k: nat): Entry
    requires 1 <= k <= Count(name) < 32
  {
    Lfn(k + (if k == Count(name) then 64 else 0), Padded(Part(name, k)))
  }

  /** The last `k` entries of a name, last part first. */
  function Entries(name: seq<byte>, k: nat): seq<Entry>
    requires k <= Count(name) < 32
  {
    if k == 0 then [] else [Stored(name, k)] + Entries(name, k - 1)
  }

  /** The used entries. */
  function Live(dir: seq<Entry>): seq<Entry> {
    if dir == [] then [] else if dir[0].Used() then [dir[0]] + Live(dir[1..]) else Live(dir[1..])
  }

  /** No character is 0 or 0xff. */
  predicate Plain(name: seq<byte>) { forall i :: 0 <= i < |name| ==> name[i] != 0 && name[i] != 0xff }

  // ---- reading one entry inverts writing it

  lemma {:induction false} GroupPlain(s: seq<word>, t: seq<byte>)
    requires |t| <= |s| && Plain(t) && (forall i :: 0 <= i < |t| ==> s[i] == t[i])
    requires |t| < |s| ==> s[|t|] == 0 || s[|t|] == 0xffff
    ensures Group(s) == t
  {
    if t != [] {
      GroupPlain(s[1..], t[1..]);
      assert t == [t[0]] + t[1..];
    }
  }

  /** The same for the group at `[i, j)` of a part that is padded. */
  lemma GroupInverts(part: seq<byte>, i: nat, j: nat)
    requires |part| <= CHARS && Plain(part) && i < j <= CHARS
    ensures var a, b := if |part| < i then |part| else i, if |part| < j then |part| else j;
            Group(Padded(part)[i..j]) == part[a..b]
  {
    hide Group;
    var s, n := Padded(part)[i..j], |part|;
    var a, b := if n < i then n else i, if n < j then n else j;
    var t := part[a..b];
    assert forall k :: 0 <= k < j - i ==> s[k] == PadAt(part, i + k);
    assert forall k :: 0 <= k < |t| ==> t[k] == part[i + k];
    GroupPlain(s, t);
  }

  lemma TextInverts(part: seq<byte>)
    requires |part| <= CHARS && Plain(part)
    ensures Text(Padded(part)) == part
  {
    hide Group, Padded, Plain;
    GroupInverts(part, 0, 5);
    GroupInverts(part, 5, 11);
    GroupInverts(part, 11, 13);
    var s := Padded(part);
    assert s[0..5] == s[..5] && s[11..13] == s[11..];
  }

  // ---- reading a name inverts storing it

  /** The used entries of a stretch begin with its first used entry. */
  lemma {:induction false} LiveFrom(dir: seq<Entry>, i: nat, e: nat)
    requires i <= e < |dir| && dir[e].Used()
    ensures var j := NextUsed(dir, i);
            && j <= e
            && Live(dir[i..e + 1]) == Live(dir[j..e + 1]) == [dir[j]] + Live(dir[j + 1..e + 1])
    decreases e - i
  {
    var s := dir[i..e + 1];
    assert s[0] == dir[i] && s[1..] == dir[i + 1..e + 1];
    if !dir[i].Used() { LiveFrom(dir, i + 1, e); }
  }

  /** A stretch whose only used entry is its last one, and which begins with it. */
  lemma LiveOne(dir: seq<Entry>, at: nat, e: nat, short: Entry)
    requires at <= e < |dir| && dir[e].Used() && dir[at].Used() && Live(dir[at..e + 1]) == [short]
    ensures at == e && dir[at] == short
  {
    LiveFrom(dir, at, e);
    assert NextUsed(dir, at) == at && dir[at] == [short][0];
    if at < e { LiveFrom(dir, at + 1, e); }
  }

  /** What is still to be read when `k` parts are: the right end of the name is in place. */
  ghost predicate Reading(dir: seq<Entry>, at: nat, e: nat, name: seq<byte>, short: Entry, k: nat, buf: seq<byte>) {
    && at <= e < |dir| && (forall i :: 0 <= i < |dir| ==> dir[i].Formed())
    && dir[at].Used() && dir[e].Used() && Plain(name) && k <= Count(name) < 32
    && Live(dir[at..e + 1]) == Entries(name, k) + [short] && short.Short? && short.First() != 0
    && |name| <= |buf| && buf[PartEnd(name, k)..|name|] == name[PartEnd(name, k)..]
  }

  lemma PartFacts(name: seq<byte>, k: nat)
    requires 1 <= k <= Count(name) < 32 && Plain(name)
    ensures PartEnd(name, k - 1) == CHARS * (k - 1) < PartEnd(name, k)
            && |Part(name, k)| == PartEnd(name, k) - CHARS * (k - 1) <= CHARS
    ensures Plain(Part(name, k)) && Text(Stored(name, k).chars) == Part(name, k)
  {
    TextInverts(Part(name, k));
  }

  /** One entry read: one part more is in place, and the next used entry is the next part's. */
  lemma ReadPart(dir: seq<Entry>, at: nat, e: nat, name: seq<byte>, short: Entry, k: nat, buf: seq<byte>)
    requires Reading(dir, at, e, name, short, k, buf) && k > 0
    ensures dir[at] == Stored(name, k)
    ensures var p, i := Part(name, k), CHARS * (k - 1);
            var next := NextUsed(dir, at + 1);
            && i + |p| <= |buf| && next <= e && dir[next].First() != 0
            && Reading(dir, next, e, name, short, k - 1, buf[..i] + p + buf[i + |p|..])
  {
    PartFacts(name, k);
    LiveFrom(dir, at, e);
    assert NextUsed(dir, at) == at;
    assert dir[at] == (Entries(name, k) + [short])[0] == Stored(name, k);
    var rest := Entries(name, k - 1) + [short];
    assert Live(dir[at + 1..e + 1]) == (Entries(name, k) + [short])[1..] == rest;
    LiveFrom(dir, at + 1, e);
    var next := NextUsed(dir, at + 1);
    assert Live(dir[next..e + 1]) == rest && dir[next] == rest[0];
    PartBuffer(name, k, buf);
  }

  lemma PartBuffer(name: seq<byte>, k: nat, buf: seq<byte>)
    requires 1 <= k <= Count(name) < 32 && Plain(name) && |name| <= |buf|
    requires buf[PartEnd(name, k)..|name|] == name[PartEnd(name, k)..]
    ensures var p, i := Part(name, k), CHARS * (k - 1);
            && i + |p| <= |buf|
            && var b := buf[..i] + p + buf[i + |p|..];
               |b| == |buf| && b[PartEnd(name, k - 1)..|name|] == name[PartEnd(name, k - 1)..]
  {
    PartFacts(name, k);
    var p, i, m := Part(name, k), CHARS * (k - 1), PartEnd(name, k);
    var b := buf[..i] + p + buf[i + |p|..];
    assert i + |p| == m;
    assert b[i..|name|] == p + buf[m..|name|];
    assert name[i..] == p + name[m..];
  }

  /** How the reader gets past a long-name entry whose text fits. */
  lemma PastEntry(dir: seq<Entry>, at: nat, total: nat, index: nat, buf: seq<byte>, text: seq<byte>)
    requires at < |dir| && (forall i :: 0 <= i < |dir| ==> dir[i].Formed())
    requires dir[at].Formed() && dir[at].Lfn? && Text(dir[at].chars) == text && |text| <= index <= NAME_MAX
             && index <= |buf|
    requires if total == 0 then Total(dir[at].order, |text|) == index > 0 else total <= NAME_MAX
    requires var next := NextUsed(dir, at + 1); next < |dir| && dir[next].First() != 0
    ensures var i, whole := index - |text|, if total == 0 then index else total;
            Name(dir, at, total, if total == 0 then 0 else index, buf) ==
            Name(dir, NextUsed(dir, at + 1), whole, if i == 0 then whole else i, buf[..i] + text + buf[i + |text|..])
  {
    hide NextUsed, Text, Total, Entry.Formed;
  }

  lemma AtShort(dir: seq<Entry>, at: nat, total: nat, index: nat, buf: seq<byte>)
    requires at < |dir| && (forall i :: 0 <= i < |dir| ==> dir[i].Formed())
    requires dir[at].Short? && 0 < index
    ensures Name(dir, at, total, index, buf) == Read(Append(buf, index, 0).0, Append(buf, index, 0).1, at)
  {
  }

  /** The name was read, its short entry found, and all is well if there is room for one byte more. */
  ghost predicate ReadBack(r: Read, name: seq<byte>, e: nat) {
    && r.at == e && r.outcome == Check(|name| + 1, |r.buf|)
    && (r.outcome.Done? ==> r.buf[..|name| + 1] == name + [0])
  }

  /** From the last part that is not in place yet. */
  lemma {:induction false} ReadsOn(dir: seq<Entry>, at: nat, e: nat, name: seq<byte>, short: Entry, k: nat,
      buf: seq<byte>)
    requires Reading(dir, at, e, name, short, k, buf) && k < Count(name) && |name| <= NAME_MAX
    ensures ReadBack(Name(dir, at, |name|, if k == 0 then |name| else CHARS * k, buf), name, e)
    decreases k
  {
    hide Name, NextUsed, Live, Entries, Text, Padded;
    if k == 0 {
      assert Entries(name, 0) + [short] == [short] by { NoEntries(name); }
      LiveOne(dir, at, e, short);
      AtShort(dir, at, |name|, |name|, buf);
      assert buf[0..|name|] == name;
      assert |name| < |buf| ==> buf[|name| := 0][..|name| + 1] == name + [0];
    } else {
      ReadPart(dir, at, e, name, short, k, buf);
      PartFacts(name, k);
      var p, i := Part(name, k), CHARS * (k - 1);
      PastEntry(dir, at, |name|, CHARS * k, buf, p);
      ReadsOn(dir, NextUsed(dir, at + 1), e, name, short, k - 1, buf[..i] + p + buf[i + |p|..]);
    }
  }

  lemma NoEntries(name: seq<byte>)
    requires Count(name) < 32
    ensures Entries(name, 0) == []
  {
  }

  /** A name stored in entries before its short entry, with unused entries anywhere in between. */
  ghost predicate Holds(dir: seq<Entry>, at: nat, e: nat, name: seq<byte>, short: Entry) {
    && at <= e < |dir| && (forall i :: 0 <= i < |dir| ==> dir[i].Formed())
    && dir[at].Used() && dir[e].Used() && short.Short? && short.First() != 0
    && 1 <= |name| && Count(name) < 32 && Plain(name) && Live(dir[at..e + 1]) == Entries(name, Count(name)) + [short]
  }

  /** Every name of 1 to 254 characters is read back if the buffer is longer than it; the cursor is left
      on the short entry. */
  lemma {:induction false} RoundTrip(dir: seq<Entry>, at: nat, e: nat, name: seq<byte>, short: Entry, buf: seq<byte>)
    requires Holds(dir, at, e, name, short) && |name| <= 254 && |buf| > |name|
    ensures var r := Name(dir, at, 0, 0, buf);
            r.outcome == Done(|name| + 1) && r.at == e && r.buf[..|name| + 1] == name + [0]
  {
    hide Name, Count, Plain, Live, Entries;
    NothingRead(dir, at, e, name, short, buf);
    ReadsAll(dir, at, e, name, short, buf);
  }

  /** Exactly those names are. */
  lemma {:induction false} RoundTripExact(dir: seq<Entry>, at: nat, e: nat, name: seq<byte>, short: Entry,
      buf: seq<byte>)
    requires Holds(dir, at, e, name, short)
    ensures at < |dir| && (forall i :: 0 <= i < |dir| ==> dir[i].Formed())
    ensures Name(dir, at, 0, 0, buf).outcome.Done? <==> |name| <= 254 && |buf| > |name|
  {
    hide Name;
    if |name| <= NAME_MAX && |name| <= |buf| {
      NothingRead(dir, at, e, name, short, buf);
      ReadsAll(dir, at, e, name, short, buf);
    } else {
      TooMuch(dir, at, e, name, short, buf);
    }
  }

  /** A name that is too long for the buffer, or at all, is refused at its first entry. */
  lemma {:induction false} TooMuch(dir: seq<Entry>, at: nat, e: nat, name: seq<byte>, short: Entry, buf: seq<byte>)
    requires Holds(dir, at, e, name, short) && (|name| > NAME_MAX || |name| > |buf|)
    ensures !Name(dir, at, 0, 0, buf).outcome.Done?
  {
    hide Text, Padded, Entry.Formed, Plain;
    var n := Count(name);
    CountBounds(name);
    LiveFrom(dir, at, e);
    assert NextUsed(dir, at) == at;
    assert dir[at] == (Entries(name, n) + [short])[0] == Stored(name, n);
    PartFacts(name, n);
    LastOrder(name);
  }

  lemma {:induction false} ReadsAll(dir: seq<Entry>, at: nat, e: nat, name: seq<byte>, short: Entry, buf: seq<byte>)
    requires Count(name) < 32 && Reading(dir, at, e, name, short, Count(name), buf) && 1 <= |name| <= NAME_MAX
    ensures ReadBack(Name(dir, at, 0, 0, buf), name, e)
  {
    hide Name, NextUsed, Live, Entries, Count, Plain, Part, Reading, Entry.Formed, Entry.Used, Entry.First, ReadBack;
    CountBounds(name);
    var n := Count(name);
    FirstPart(dir, at, e, name, short, buf);
    var i := CHARS * (n - 1);
    var b := buf[..i] + Part(name, n) + buf[i + |Part(name, n)|..];
    ReadsOn(dir, NextUsed(dir, at + 1), e, name, short, n - 1, b);
  }

  lemma NothingRead(dir: seq<Entry>, at: nat, e: nat, name: seq<byte>, short: Entry, buf: seq<byte>)
    requires Holds(dir, at, e, name, short) && |name| <= |buf|
    ensures Reading(dir, at, e, name, short, Count(name), buf)
  {
    hide Live, Entries, Plain, Count, PartEnd, Entry.Formed, Entry.Used, Entry.First;
    CountBounds(name);
    assert buf[|name|..|name|] == [] == name[|name|..];
  }

  /** The entry read first holds the last part and tells how long the name is. */
  lemma FirstPart(dir: seq<Entry>, at: nat, e: nat, name: seq<byte>, short: Entry, buf: seq<byte>)
    requires 1 <= |name| <= NAME_MAX && 1 <= Count(name) < 32 && Reading(dir, at, e, name, short, Count(name), buf)
    ensures var n := Count(name); var p, i, next := Part(name, n), CHARS * (n - 1), NextUsed(dir, at + 1);
            && i + |p| <= |buf| && next <= e && Reading(dir, next, e, name, short, n - 1, buf[..i] + p + buf[i + |p|..])
            && Name(dir, at, 0, 0, buf) == Name(dir, next, |name|, if n == 1 then |name| else CHARS * (n - 1),
                  buf[..i] + p + buf[i + |p|..])
  {
    hide Name, NextUsed, Live, Entries, Text, Padded, Count, PartEnd, Plain, Total, Part;
    CountBounds(name);
    var n := Count(name);
    ReadPart(dir, at, e, name, short, n, buf);
    PartFacts(name, n);
    LastOrder(name);
    PastEntry(dir, at, 0, |name|, buf, Part(name, n));
  }

  lemma CountBounds(name: seq<byte>)
    requires 1 <= |name| && Count(name) < 32
    ensures 1 <= Count(name) && PartEnd(name, Count(name)) == |name|
  {
  }

  lemma LastOrder(name: seq<byte>)
    requires 1 <= Count(name) < 32
    ensures Total(Stored(name, Count(name)).order, |Part(name, Count(name))|) == |name|
  {
  }

  // ---- 8.3 names

  function Spaces(n: nat): seq<byte> { seq(n, i => 0x20) }

  /** What the reader makes of an 8.3 name: the characters up to the first space, with a dot before the
      ninth. */
  function Plain83(name: seq<byte>, i: nat): seq<byte>
    requires i <= |name|
    decreases |name| - i
  {
    if i == |name| || name[i] == 0x20 then []
    else (if i == 8 then ['.' as int] else []) + [name[i]] + Plain83(name, i + 1)
  }

  /** A base of up to 8 characters and an extension of up to 3, each filled up with spaces. */
  function Stored83(base: seq<byte>, ext: seq<byte>): seq<byte>
    requires |base| <= 8 && |ext| <= 3
  {
    base + Spaces(8 - |base|) + ext + Spaces(3 - |ext|)
  }

  predicate NoSpace(s: seq<byte>) { forall i :: 0 <= i < |s| ==> s[i] != 0x20 }

  lemma {:induction false} Plain83Runs(name: seq<byte>, i: nat, j: nat)
    requires i <= j <= |name| && NoSpace(name[i..j]) && (j < |name| ==> name[j] == 0x20)
    ensures Plain83(name, i) == if i <= 8 < j then name[i..8] + ['.' as int] + name[8..j] else name[i..j]
    decreases j - i
  {
    if i < j {
      var s := name[i..j];
      assert s[0] == name[i] && name[i + 1..j] == s[1..] && s == [name[i]] + s[1..];
      Plain83Runs(name, i + 1, j);
      if i < 8 < j {
        assert name[i..8] == [name[i]] + name[i + 1..8];
      } else if i == 8 {
        assert name[i..8] == [];
      }
    }
  }

  /** An 8.3 name is read as base, dot and extension exactly if there is no extension or the base is
      full: spaces after a shorter base end the name. */
  lemma ShortNameExact(base: seq<byte>, ext: seq<byte>)
    requires 1 <= |base| <= 8 && |ext| <= 3 && NoSpace(base) && NoSpace(ext)
    ensures var r := Plain83(Stored83(base, ext), 0);
            (r == base + (if ext == [] then [] else ['.' as int] + ext)) <==> (ext == [] || |base| == 8)
  {
    var s, n := Stored83(base, ext), |base|;
    var j := if n < 8 then n else 8 + |ext|;
    assert s[0..j] == if n < 8 then base else base + ext;
    assert j < 11 ==> s[j] == 0x20;
    Plain83Runs(s, 0, j);
    assert n == 8 ==> s[0..8] == base && s[8..j] == ext;
  }

  /** With room enough, that is what an entry without long-name entries is read as. */
  lemma {:induction false} ShortReads(name: seq<byte>, i: nat, buf: seq<byte>, index: nat)
    requires i <= |name| && index + |Plain83(name, i)| + 1 <= |buf| && index + |Plain83(name, i)| < NAME_MAX
    ensures var (o, b), p := ShortName(name, i, buf, index), Plain83(name, i);
            o == Done(index + |p| + 1) && b[..index + |p| + 1] == buf[..index] + p + [0]
    decreases |name| - i
  {
    if i == |name| || name[i] == 0x20 {
      assert buf[index := 0][..index + 1] == buf[..index] + [0];
    } else {
      var (d, b) := if i == 8 then Append(buf, index, '.' as int) else (Done(index), buf);
      assert b[..d.count] == buf[..index] + if i == 8 then ['.' as int] else [];
      var (e, c) := Append(b, d.count, name[i]);
      assert c[..e.count] == b[..d.count] + [name[i]];
      ShortReads(name, i + 1, c, e.count);
    }
  }
}
