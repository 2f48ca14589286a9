/** The reader of directory entry names as it runs: loops that fill the caller's buffer. */
module LongNameReader {
  import opened LongNames

  /** One of the three loops of `__fat32_lfn_read`: a group goes to `buf` from `e` on. */
  method ReadGroup(group: seq<word>, buf: array<byte>, e: nat) returns (end: nat)
    requires e + |group| <= buf.Length
    modifies buf
    ensures end == e + |Group(group)| && buf[..end] == old(buf[..e]) + Group(group)
  {
    var i := 0;
    end := e;
    while i < |group| && !Ends(group[i])
      invariant i <= |group| && end == e + i && buf[..end] + Group(group[i..]) == old(buf[..e]) + Group(group)
    {
      assert group[i..][0] == group[i] && group[i..][1..] == group[i + 1..];
      ghost var b := buf[..end];
      buf[end] := group[i] % 256;
      assert buf[..end + 1] == b + [group[i] % 256];
      i, end := i + 1, end + 1;
    }
    assert i < |group| ==> group[i..][0] == group[i];
    assert Group(group[i..]) == [];
  }

  /** `__fat32_lfn_read` */
  method ReadText(chars: seq<word>, buf: array<byte>) returns (e: nat)
    requires |chars| == CHARS <= buf.Length
    modifies buf
    ensures e == |Text(chars)| && buf[..e] == Text(chars)
  {
    e := ReadGroup(chars[..5], buf, 0);
    e := ReadGroup(chars[5..11], buf, e);
    e := ReadGroup(chars[11..], buf, e);
  }

  /** `name_append` */
  method AppendByte(name: array<byte>, index: nat, c: byte) returns (o: Outcome)
    modifies name
    ensures (o, name[..]) == Append(old(name[..]), index, c)
  {
    o := Check(index + 1, name.Length);
    if o.Done? { name[index] := c; }
  }

  /** The 8.3 name of an entry, and the terminator. */
  method ReadShort(short: seq<byte>, name: array<byte>) returns (o: Outcome)
    modifies name
    ensures (o, name[..]) == ShortName(short, 0, old(name[..]), 0)
  {
    var i, index := 0, 0;
    while i < |short| && short[i] != 0x20
      invariant i <= |short| && ShortName(short, i, name[..], index) == ShortName(short, 0, old(name[..]), 0)
    {
      if i == 8 {
        o := AppendByte(name, index, '.' as int);
        if !o.Done? { return; }
        index := o.count;
      }
      o := AppendByte(name, index, short[i]);
      if !o.Done? { return; }
      index, i := o.count, i + 1;
    }
    o := AppendByte(name, index, 0);
  }

  /** The walk to the next used entry. */
  method SkipUnused(dir: seq<Entry>, at: nat) returns (next: nat)
    requires at < |dir|
    ensures next == NextUsed(dir, at + 1)
  {
    next := at + 1;
    while next < |dir| && dir[next].First() == UNUSED
      invariant at < next <= |dir| && NextUsed(dir, next) == NextUsed(dir, at + 1)
    {
      next := next + 1;
    }
  }

  /** `memcpy` into the name. */
  method CopyText(name: array<byte>, index: nat, buf: array<byte>, n: nat)
    requires name != buf && n <= buf.Length && index + n <= name.Length
    modifies name
    ensures name[..] == old(name[..index]) + buf[..n] + old(name[index + n..])
  {
    var i := 0;
    while i < n
      invariant i <= n && name[..index] == old(name[..index]) && name[index + i..] == old(name[index + i..])
      invariant forall j :: 0 <= j < i ==> name[index + j] == buf[j]
    {
      name[index + i] := buf[i];
      i := i + 1;
    }
    assert name[index..index + n] == buf[..n];
    assert name[..] == name[..index] + name[index..index + n] + name[index + n..];
  }

  /** `__fat32_entry_name` */
  method EntryName(dir: seq<Entry>, start: nat, name: array<byte>) returns (o: Outcome, at: nat)
    requires start < |dir| && forall i :: 0 <= i < |dir| ==> dir[i].Formed()
    modifies name
    ensures Read(o, name[..], at) == Name(dir, start, 0, 0, old(name[..]))
  {
    hide Text, Total, NextUsed, Name;
    var buffer := new byte[CHARS + 1];
    var total, index := 0, 0;
    at := start;
    while dir[at].Lfn?
      invariant at < |dir| && fresh(buffer) && buffer.Length == CHARS + 1
      invariant Name(dir, at, total, index, name[..]) == Name(dir, start, 0, 0, old(name[..]))
      decreases |dir| - at
    {
      assert dir[at].Formed();
      ghost var b := name[..];
      AtLfn(dir, at, total, index, b);
      var size := ReadText(dir[at].chars, buffer);
      assert name[..] == b;
      if total == 0 {
        total := Total(dir[at].order, size);
        index := total;
      }
      if total != 0 {
        index := (index + 65536 - size) % 65536;
        o := Check(index + size, name.Length);
        if !o.Done? { return; }
        CopyText(name, index, buffer, size);
        if index == 0 { index := total; }
      }
      var next := SkipUnused(dir, at);
      if next == |dir| || dir[next].First() == 0 { return OutOfRange, next; }
      at := next;
    }
    assert dir[at].Formed();
    AtOther(dir, at, total, index, name[..]);
    if index != 0 {
      o := AppendByte(name, index, 0);
    } else {
      o := ReadShort(dir[at].name, name);
    }
  }

  /** What is made of a long-name entry. */
  lemma AtLfn(dir: seq<Entry>, at: nat, total: nat, index: nat, buf: seq<byte>)
    requires at < |dir| && (forall i :: 0 <= i < |dir| ==> dir[i].Formed()) && dir[at].Formed() && dir[at].Lfn?
    ensures var text := Text(dir[at].chars);
            var total1 := if total == 0 then Total(dir[at].order, |text|) else total;
            var index1 := if total == 0 then total1 else index;
            var index2 := (index1 + 65536 - |text|) % 65536;
            var check := Check(index2 + |text|, |buf|);
            Name(dir, at, total, index, buf) ==
              if total1 == 0 then Onward(dir, at, total1, index1, buf)
              else if check.Done? then
                Onward(dir, at, total1, if index2 == 0 then total1 else index2,
                      buf[..index2] + text + buf[index2 + |text|..])
              else Read(check, buf, at)
  {
  }

  /** What is made of any other entry. */
  lemma AtOther(dir: seq<Entry>, at: nat, total: nat, index: nat, buf: seq<byte>)
    requires at < |dir| && (forall i :: 0 <= i < |dir| ==> dir[i].Formed()) && dir[at].Short?
    ensures var (o, b) := if index != 0 then Append(buf, index, 0) else ShortName(dir[at].name, 0, buf, 0);
            Name(dir, at, total, index, buf) == Read(o, b, at)
  {
  }
}
