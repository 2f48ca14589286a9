/** The 64-bit words behind the model: page-table entries and addresses made of indices
    (kernel/mm/vmm.c, the macros). */
module Bits {
  type word = bv64

  const PAGE_MASK: word := 0xfff
  /** Present to global, the kernel's own bit 9, and execute-disable. */
  const FLAGS: word := 0x8000_0000_0000_03ff
  const ACCESSED_DIRTY: word := 0x60
  const HIGH: word := 0xffff_0000_0000_0000
  const LOW63: word := 0x7fff_ffff_ffff_ffff

  // ---- page-table entries

  /** Bit 47 goes to bits 48 to 63. */
  function Extend(a: word): word { if (a >> 47) & 1 == 1 then a | HIGH else a & !HIGH }

  function Strip(e: word): word { e & !FLAGS }

  /** `vmm_entry_to_addr` */
  function EntryToAddr(e: word): word { Extend(Strip(e)) }

  /** `vmm_entry_to_flags` */
  function EntryToFlags(e: word): word { e & FLAGS & !ACCESSED_DIRTY }

  /** Bits 47 to 63 are alike. */
  predicate Canonical(a: word) { a & 0xffff_8000_0000_0000 == 0 || a & 0xffff_8000_0000_0000 == 0xffff_8000_0000_0000 }

  /** An entry for a page, after the processor has `touched` it. */
  function Make(addr: word, flags: word, touched: word): word { addr | flags | touched }

  predicate Parts(addr: word, flags: word, touched: word) {
    addr & PAGE_MASK == 0 && flags & !FLAGS == 0 && touched & !ACCESSED_DIRTY == 0
  }

  /** The entry gives back the address exactly if it is canonical: of the physical addresses, those
      below 2^47. */
  lemma AddressBack(addr: word, flags: word, touched: word)
    requires Parts(addr, flags, touched)
    ensures EntryToAddr(Make(addr, flags, touched)) == addr <==> Canonical(addr)
  {
    hide Extend, Strip, Canonical, Make, Parts;
    StripMade(addr, flags, touched);
    Extension(addr);
  }

  /** The entry of a physical page gives back the flags, but for those that the processor sets. */
  lemma FlagsBack(addr: word, flags: word, touched: word)
    requires Parts(addr, flags, touched) && addr & HIGH == 0
    ensures EntryToFlags(Make(addr, flags, touched)) == flags & !ACCESSED_DIRTY
  {
  }

  function Low(addr: word): word { addr & LOW63 }

  lemma StripMade(addr: word, flags: word, touched: word)
    requires Parts(addr, flags, touched)
    ensures Strip(Make(addr, flags, touched)) == Low(addr)
  {
  }

  predicate Bit47(addr: word) { (addr >> 47) & 1 == 1 }

  lemma Extension(addr: word)
    ensures Extend(Low(addr)) == addr <==> Canonical(addr)
  {
    hide Extend, Canonical, Low;
    if Bit47(addr) { ExtendHigh(addr); } else { ExtendLow(addr); }
  }

  function WithHigh(addr: word): word { addr | HIGH }
  function WithoutHigh(addr: word): word { addr & !HIGH }

  lemma ExtendHigh(addr: word)
    requires Bit47(addr)
    ensures Extend(Low(addr)) == addr <==> Canonical(addr)
  {
    hide Extend, Canonical, Low, WithHigh, Bit47;
    ExtendedHigh(addr);
    if WithHigh(addr) == addr { HighCanonical(addr); }
    if Canonical(addr) { CanonicalHigh(addr); }
  }

  lemma ExtendedHigh(addr: word)
    requires Bit47(addr)
    ensures Extend(Low(addr)) == WithHigh(addr)
  {
  }

  lemma HighCanonical(addr: word)
    requires Bit47(addr) && WithHigh(addr) == addr
    ensures Canonical(addr)
  {
  }

  lemma CanonicalHigh(addr: word)
    requires Bit47(addr) && Canonical(addr)
    ensures WithHigh(addr) == addr
  {
  }

  lemma ExtendLow(addr: word)
    requires !Bit47(addr)
    ensures Extend(Low(addr)) == addr <==> Canonical(addr)
  {
    hide Extend, Canonical, Low, WithoutHigh, Bit47;
    ExtendedLow(addr);
    if WithoutHigh(addr) == addr { LowCanonical(addr); }
    if Canonical(addr) { CanonicalLow(addr); }
  }

  lemma ExtendedLow(addr: word)
    requires !Bit47(addr)
    ensures Extend(Low(addr)) == WithoutHigh(addr)
  {
  }

  lemma LowCanonical(addr: word)
    requires !Bit47(addr) && WithoutHigh(addr) == addr
    ensures Canonical(addr)
  {
  }

  lemma CanonicalLow(addr: word)
    requires !Bit47(addr) && Canonical(addr)
    ensures WithoutHigh(addr) == addr
  {
  }

  // ---- addresses

  function Put4(i: word): word { i << 39 }
  function Put3(i: word): word { i << 30 }
  function Put2(i: word): word { i << 21 }
  function Put1(i: word): word { i << 12 }
  function Sign(a: word): word { if (a >> 47) & 1 == 1 then HIGH else 0 }
  function Join(a: word, b: word, c: word, d: word, e: word): word { a | b | c | d | e }

  /** `vmm_indexes_to_addr` */
  function IndexesToAddr(i4: word, i3: word, i2: word, i1: word): word {
    Join(Put4(i4), Put3(i3), Put2(i2), Put1(i1), Sign(Put4(i4)))
  }

  // `vmm_pml4_index` and the like.

  function Index4(a: word): word { (a >> 39) & 0x1ff }
  function Index3(a: word): word { (a >> 30) & 0x1ff }
  function Index2(a: word): word { (a >> 21) & 0x1ff }
  function Index1(a: word): word { (a >> 12) & 0x1ff }

  /** The address that indices make has those indices, and is a canonical page address. */
  lemma IndexesBack(i4: word, i3: word, i2: word, i1: word)
    requires i4 < 512 && i3 < 512 && i2 < 512 && i1 < 512
    ensures var a := IndexesToAddr(i4, i3, i2, i1);
            Index4(a) == i4 && Index3(a) == i3 && Index2(a) == i2 && Index1(a) == i1 && Canonical(a) && PageAddr(a)
  {
    hide IndexesToAddr, Index4, Index3, Index2, Index1, Canonical, PageAddr;
    Back4(i4, i3, i2, i1);
    Back3(i4, i3, i2, i1);
    Back2(i4, i3, i2, i1);
    Back1(i4, i3, i2, i1);
    BackCanonical(i4, i3, i2, i1);
  }

  lemma Back4(i4: word, i3: word, i2: word, i1: word)
    requires i4 < 512 && i3 < 512 && i2 < 512 && i1 < 512
    ensures Index4(IndexesToAddr(i4, i3, i2, i1)) == i4
  {
  }

  lemma Back3(i4: word, i3: word, i2: word, i1: word)
    requires i4 < 512 && i3 < 512 && i2 < 512 && i1 < 512
    ensures Index3(IndexesToAddr(i4, i3, i2, i1)) == i3
  {
  }

  lemma Back2(i4: word, i3: word, i2: word, i1: word)
    requires i4 < 512 && i3 < 512 && i2 < 512 && i1 < 512
    ensures Index2(IndexesToAddr(i4, i3, i2, i1)) == i2
  {
  }

  lemma Back1(i4: word, i3: word, i2: word, i1: word)
    requires i4 < 512 && i3 < 512 && i2 < 512 && i1 < 512
    ensures Index1(IndexesToAddr(i4, i3, i2, i1)) == i1
  {
  }

  lemma BackCanonical(i4: word, i3: word, i2: word, i1: word)
    requires i4 < 512 && i3 < 512 && i2 < 512 && i1 < 512
    ensures Canonical(IndexesToAddr(i4, i3, i2, i1)) && PageAddr(IndexesToAddr(i4, i3, i2, i1))
  {
  }

  function Field4(a: word): word { a & 0xff80_0000_0000 }
  function Field3(a: word): word { a & 0x7f_c000_0000 }
  function Field2(a: word): word { a & 0x3fe0_0000 }
  function Field1(a: word): word { a & 0x1f_f000 }
  function Upper(a: word): word { a & HIGH }

  predicate PageAddr(a: word) { a & PAGE_MASK == 0 }

  /** The indices of a canonical page address make that address. */
  lemma AddrBack(a: word)
    requires Canonical(a) && PageAddr(a)
    ensures IndexesToAddr(Index4(a), Index3(a), Index2(a), Index1(a)) == a
  {
    hide Put4, Put3, Put2, Put1, Sign, Join, Index4, Index3, Index2, Index1, Canonical, PageAddr;
    hide Field4, Field3, Field2, Field1, Upper;
    Fields(a);
    SignBit(a);
    Union(a);
  }

  lemma Fields(a: word)
    ensures Put4(Index4(a)) == Field4(a) && Put3(Index3(a)) == Field3(a)
    ensures Put2(Index2(a)) == Field2(a) && Put1(Index1(a)) == Field1(a)
  {
  }

  lemma SignBit(a: word)
    requires Canonical(a)
    ensures Sign(Field4(a)) == Upper(a)
  {
  }

  lemma Union(a: word)
    requires PageAddr(a)
    ensures Join(Field4(a), Field3(a), Field2(a), Field1(a), Upper(a)) == a
  {
  }
}
