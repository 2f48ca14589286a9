/** Reading bytes from a disk of sectors (kernel/core/disk/disk.c). The controller is a sequence of
    bytes, some of whose sectors may fail. */
module Disk {
  type byte = x: nat | x < 256

  /** Sectors that hold `size` bytes. */
  function Sectors(size: nat, ss: nat): (n: nat)
    requires ss > 0
    ensures (n - 1) * ss < size <= n * ss || (size == 0 && n == 0)
  {
    Division(size + ss - 1, ss);
    Spread((size + ss - 1) / ss - 1, 1, ss);
    (size + ss - 1) / ss
  }

  lemma Division(x: nat, d: nat)
    requires d > 0
    ensures x == x / d * d + x % d && 0 <= x % d < d
  {
  }

  lemma Spread(a: int, b: int, d: int)
    ensures (a + b) * d == a * d + b * d
  {
  }

  /** The quotient is determined. */
  lemma Quotient(a: nat, b: nat, ss: nat, size: nat)
    requires ss > 0 && a * ss < size + ss && size <= a * ss && b * ss < size + ss && size <= b * ss
    ensures a == b
  {
    if a < b { Below(a, b, ss); }
    if b < a { Below(b, a, ss); }
  }

  lemma Below(a: nat, b: nat, d: nat)
    requires a < b && d > 0
    ensures a * d + d <= b * d
  {
    Spread(a + 1, b - a - 1, d);
    Spread(a, 1, d);
    Positive(b - a - 1, d);
  }

  lemma Positive(a: nat, d: nat)
    ensures a * d >= 0
  {
  }

  /** A size in whole sectors and a remainder. */
  lemma Parts(size: nat, ss: nat)
    requires ss > 0
    ensures size == size / ss * ss + size % ss && size % ss < ss
    ensures Sectors(size, ss) == if size % ss == 0 then size / ss else size / ss + 1
  {
    Division(size, ss);
    var n := if size % ss == 0 then size / ss else size / ss + 1;
    Spread(size / ss, 1, ss);
    Spread(Sectors(size, ss) - 1, 1, ss);
    if size > 0 { Quotient(n, Sectors(size, ss), ss, size); }
  }

  lemma Step(k: nat, full: nat, ss: nat)
    requires ss > 0 && k <= full && (full - k) * ss != 0
    ensures k < full && k * ss + ss <= full * ss && (full - k) * ss == ss + (full - (k + 1)) * ss
            && (k + 1) * ss == k * ss + ss
  {
    Below(k, full, ss);
    Spread(full - k - 1, 1, ss);
    Spread(k, 1, ss);
  }

  lemma Empty(a: nat, ss: nat)
    requires ss > 0 && a * ss == 0
    ensures a == 0
  {
  }

  /** The whole sectors and the part of the last one make up the bytes. */
  lemma Join(data: seq<byte>, from: nat, f: nat, rem: nat, rest: seq<byte>, b: seq<byte>, was: seq<byte>)
    requires from + f + rem <= |data| && f + rem <= |was| && rem <= |rest|
    requires b == data[from..from + f] + was[f..] && rest[..rem] == data[from + f..from + f + rem]
    ensures b[..f] + rest[..rem] + b[f + rem..] == data[from..from + f + rem] + was[f + rem..]
  {
    assert data[from..from + f + rem] == data[from..from + f] + data[from + f..from + f + rem];
    assert b[f + rem..] == was[f + rem..];
  }

  class Disk {
    const ss: nat
    const data: seq<byte>
    const bad: set<nat>

    constructor (ss: nat, data: seq<byte>, bad: set<nat>)
      ensures this.ss == ss && this.data == data && this.bad == bad
    {
      this.ss, this.data, this.bad := ss, data, bad;
    }

    /** Sectors `[lba, lba + n)` exist and do not fail. */
    predicate Readable(lba: nat, n: nat) {
      (n > 0 ==> (lba + n) * ss <= |data|) && forall s :: lba <= s < lba + n ==> s !in bad
    }

    /** `disk_do` with the read operation, into the buffer from `at` on. */
    method Do(lba: nat, n: nat, buf: array<byte>, at: nat) returns (ok: bool)
      requires at + n * ss <= buf.Length
      modifies buf
      ensures ok == Readable(lba, n)
      ensures buf[..] == if ok then old(buf[..at]) + Bytes(lba, n) + old(buf[at + n * ss..]) else old(buf[..])
    {
      hide Readable, Bytes;
      ok := Readable(lba, n);
      if ok && n > 0 {
        WholeBytes(lba, n);
        Fill(buf, at, lba * ss, n * ss);
      } else if n == 0 {
        NothingRead(lba);
      }
    }

    /** `len` bytes of the disk, from `from` on, go to the buffer. */
    method Fill(buf: array<byte>, at: nat, from: nat, len: nat)
      requires at + len <= buf.Length && from + len <= |data|
      modifies buf
      ensures buf[..] == old(buf[..at]) + data[from..from + len] + old(buf[at + len..])
    {
      var i := 0;
      ghost var s := data[from..from + len];
      while i < len
        invariant i <= len && (forall j :: 0 <= j < at || at + i <= j < buf.Length ==> buf[j] == old(buf[j]))
        invariant buf[at..at + i] == s[..i]
      {
        buf[at + i] := data[from + i];
        assert s[..i + 1] == s[..i] + [s[i]] && buf[at..at + i + 1] == buf[at..at + i] + [buf[at + i]];
        i := i + 1;
      }
      assert buf[..at] == old(buf[..at]) && buf[at + len..] == old(buf[at + len..]);
      assert buf[..] == buf[..at] + buf[at..at + len] + buf[at + len..];
    }

    /** The bytes of sectors `[lba, lba + n)`. */
    function Bytes(lba: nat, n: nat): (s: seq<byte>)
      requires Readable(lba, n)
      ensures |s| == n * ss
    {
      Spread(lba, n, ss);
      if n == 0 then [] else data[lba * ss..lba * ss + n * ss]
    }

    lemma ReadableSplit(lba: nat, a: nat, b: nat)
      requires ss > 0
      ensures Readable(lba, a + b) <==> Readable(lba, a) && Readable(lba + a, b)
    {
      Spread(lba + a, b, ss);
      Positive(b, ss);
      if Readable(lba, a) && Readable(lba + a, b) {
        forall s | lba <= s < lba + (a + b) ensures s !in bad {
          assert s < lba + a || lba + a <= s < lba + a + b;
        }
      }
    }

    lemma BytesSplit(lba: nat, a: nat, b: nat)
      requires ss > 0 && Readable(lba, a) && Readable(lba + a, b) && Readable(lba, a + b)
      ensures Bytes(lba, a) + Bytes(lba + a, b) == Bytes(lba, a + b)
    {
      Spread(lba, a, ss);
      Spread(a, b, ss);
    }

    lemma NothingRead(lba: nat)
      ensures Readable(lba, 0) && Bytes(lba, 0) == []
    {
    }

    /** A sector that fails makes the whole read fail. */
    lemma Fails(lba: nat, k: nat, full: nat)
      requires ss > 0 && k <= full && !Readable(lba + k, 1)
      ensures !Readable(lba, full + 1)
    {
      ReadableSplit(lba, k, full + 1 - k);
      ReadableSplit(lba + k, 1, full - k);
    }

    /** Copying the first bytes of one buffer into another. */
    method Copy(dst: array<byte>, at: nat, src: array<byte>, from: nat, n: nat)
      requires dst != src && at + n <= dst.Length && from + n <= src.Length
      modifies dst
      ensures dst[..] == old(dst[..at]) + src[from..from + n] + old(dst[at + n..])
    {
      var i := 0;
      ghost var s := src[from..from + n];
      while i < n
        invariant i <= n && (forall j :: 0 <= j < at || at + i <= j < dst.Length ==> dst[j] == old(dst[j]))
        invariant dst[at..at + i] == s[..i]
      {
        dst[at + i] := src[from + i];
        assert s[..i + 1] == s[..i] + [s[i]] && dst[at..at + i + 1] == dst[at..at + i] + [dst[at + i]];
        i := i + 1;
      }
      assert dst[..at] == old(dst[..at]) && dst[at + n..] == old(dst[at + n..]);
      assert dst[..] == dst[..at] + dst[at..at + n] + dst[at + n..];
    }

    lemma WholeBytes(lba: nat, n: nat)
      requires Readable(lba, n) && n > 0
      ensures lba * ss + n * ss <= |data| && Bytes(lba, n) == data[lba * ss..lba * ss + n * ss]
    {
      Spread(lba, n, ss);
    }

    lemma RestBytes(lba: nat, full: nat, rem: nat, size: nat, rest: seq<byte>, b: seq<byte>, was: seq<byte>)
      requires ss > 0 && 0 < rem < ss && size == full * ss + rem <= |was| && Readable(lba, full)
               && Readable(lba + full, 1)
      requires rest == Bytes(lba + full, 1) && b == Bytes(lba, full) + was[full * ss..]
      ensures lba * ss + size <= |data|
      ensures b[..full * ss] + rest[..rem] + b[full * ss + rem..] == data[lba * ss..lba * ss + size] + was[size..]
    {
      hide Readable, Bytes;
      var from, f := lba * ss, full * ss;
      Spread(lba, full, ss);
      WholeBytes(lba + full, 1);
      if full > 0 { WholeBytes(lba, full); } else { NothingRead(lba); }
      Join(data, from, f, rem, rest, b, was);
    }

    /** `disk_read_lba`: it succeeds exactly if every sector that holds one of the bytes can be read,
        and then the buffer holds the bytes and is as before after them. */
    method ReadLba(lba: nat, size: nat, buf: array<byte>) returns (ok: bool)
      requires ss > 0 && 0 < size <= buf.Length
      modifies buf
      ensures ok == Readable(lba, Sectors(size, ss))
      ensures ok ==> lba * ss + size <= |data|
      ensures ok ==> buf[..] == data[lba * ss..lba * ss + size] + old(buf[size..])
    {
      hide Readable, Sectors, Bytes;
      Parts(size, ss);
      var rem := size % ss;
      ghost var full := size / ss;
      if rem == 0 {
        ok := Do(lba, size / ss, buf, 0);
        if ok { WholeBytes(lba, full); }
        return;
      }
      var l, at;
      ok, l, at := ReadWhole(lba, size, buf);
      if !ok { return; }
      ok := ReadRest(lba, full, rem, l, at, buf, old(buf[..]));
    }

    /** The end of `disk_read_lba`: a part of one more sector, through a buffer of its own. */
    method ReadRest(ghost lba: nat, ghost full: nat, rem: nat, l: nat, at: nat, buf: array<byte>, ghost was: seq<byte>)
        returns (ok: bool)
      requires 0 < rem < ss && Readable(lba, full) && l == lba + full && at == full * ss
               && at + rem <= buf.Length == |was|
      requires buf[..] == Bytes(lba, full) + was[full * ss..]
      modifies buf
      ensures ok == Readable(lba, full + 1)
      ensures ok ==> lba * ss + (full * ss + rem) <= |data|
      ensures ok ==> buf[..] == data[lba * ss..lba * ss + (full * ss + rem)] + was[full * ss + rem..]
    {
      hide Readable, Bytes;
      var rest := new byte[ss];
      ReadableSplit(lba, full, 1);
      ghost var b := buf[..];
      ok := Do(l, 1, rest, 0);
      Copy(buf, at, rest, 0, rem);
      if ok { RestBytes(lba, full, rem, full * ss + rem, rest[..], b, was); }
    }

    /** The loop of `disk_read_lba` over the sectors that are wanted whole. */
    method ReadWhole(lba: nat, size: nat, buf: array<byte>) returns (ok: bool, l: nat, at: nat)
      requires ss > 0 && 0 < size <= buf.Length && size % ss != 0
      modifies buf
      ensures !ok ==> !Readable(lba, Sectors(size, ss))
      ensures ok ==> Readable(lba, size / ss) && l == lba + size / ss && at == size / ss * ss
      ensures ok ==> buf[..] == Bytes(lba, size / ss) + old(buf[size / ss * ss..])
    {
      hide Readable, Bytes, Sectors;
      Parts(size, ss);
      var left, rem := size, size % ss;
      ghost var full, k := size / ss, 0;
      l, at, ok := lba, 0, true;
      NothingRead(lba);
      while left != rem
        invariant k <= full && left == rem + (full - k) * ss && at == k * ss <= buf.Length && l == lba + k && ok
        invariant Readable(lba, k) && buf[..] == Bytes(lba, k) + old(buf[at..])
        decreases full - k
      {
        Step(k, full, ss);
        ReadableSplit(lba, k, 1);
        ok := Do(l, 1, buf, at);
        if !ok {
          Fails(lba, k, full);
          return;
        }
        BytesSplit(lba, k, 1);
        left, l, at, k := left - ss, l + 1, at + ss, k + 1;
      }
      Empty(full - k, ss);
    }

    /** `disk_read`: bytes `[offset, offset + size)`, wherever they lie. */
    method ReadBytes(offset: nat, size: nat, buf: array<byte>) returns (ok: bool)
      requires ss > 0 && 0 < size <= buf.Length
      modifies buf
      ensures ok == Readable(offset / ss, Sectors(offset % ss + size, ss))
      ensures ok ==> offset + size <= |data| && buf[..] == data[offset..offset + size] + old(buf[size..])
    {
      hide Readable, Sectors;
      Division(offset, ss);
      var lba, rem := offset / ss, offset % ss;
      if rem == 0 {
        ok := ReadLba(lba, size, buf);
        return;
      }
      var full := new byte[rem + size];
      ok := ReadLba(lba, rem + size, full);
      Copy(buf, 0, full, rem, size);
    }
  }
}
