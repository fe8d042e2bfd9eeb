/**
 * `iommu32_memread` (io.c:94-157): translate a 32-bit device virtual address
 * through a two-level IOMMU table and show the memory it resolves to.
 *
 * The walk reads three 4-byte entries: the directory entry at the table
 * base, the page-table entry it points to, and the page entry. `Walk` is the
 * walk over an abstract entry reader; `Iommu32MemRead` is the C routine,
 * which reads each entry with `mem_read` and then maps the resolved page for
 * a diagnostic dump. The mask constants of the source are `int` shifts
 * (`0x3FF << 22`, `0xFFFFF << 12`, `0xFFFCF << 12`); for a virtual address
 * below 2^32 they act as the 32-bit masks written out below.
 */
module Iommu {
  import opened Bytes
  import opened Wrappers
  import opened PageWindow
  import opened Access

  const NOT_CONFIGURED: bv32 := 0xFFFF_FFFF     // an all-ones directory entry
  const DIR_INDEX_MASK: bv32 := 0xFFC0_0000     // 0x3FF << 22, bits [31:22]
  const TABLE_INDEX_MASK: bv32 := 0x003F_F000   // 0x3FF << 12, bits [21:12]
  const TABLE_ADDR_MASK: bv32 := 0xFFFF_F000    // 0xFFFFF << 12, bits [31:12]
  const PAGE_ADDR_MASK: bv32 := 0xFFFC_F000     // 0xFFFCF << 12: bits 16-17 cleared too
  const PAGE_OFFSET_MASK: bv32 := 0xFFF

  /** Byte offset of the page-table entry's slot: `(va & (0x3FF << 22)) >> 20`. */
  function DirectoryOffset(va: bv32): (r: bv32)
    ensures r == ((va >> 22) & 0x3FF) << 2
    ensures r & 3 == 0 && r < 4096
  {
    DirectoryOffsetIsIndex(va);
    (va & DIR_INDEX_MASK) >> 20
  }

  lemma DirectoryOffsetIsIndex(va: bv32)
    ensures (va & DIR_INDEX_MASK) >> 20 == ((va >> 22) & 0x3FF) << 2
    ensures ((va >> 22) & 0x3FF) << 2 < 4096
    ensures (((va >> 22) & 0x3FF) << 2) & 3 == 0
  {}

  /** Byte offset of the page entry's slot: `(va & (0x3FF << 12)) >> 10`. */
  function TableOffset(va: bv32): (r: bv32)
    ensures r == ((va >> 12) & 0x3FF) << 2
    ensures r & 3 == 0 && r < 4096
  {
    TableOffsetIsIndex(va);
    (va & TABLE_INDEX_MASK) >> 10
  }

  lemma TableOffsetIsIndex(va: bv32)
    ensures (va & TABLE_INDEX_MASK) >> 10 == ((va >> 12) & 0x3FF) << 2
    ensures ((va >> 12) & 0x3FF) << 2 < 4096
    ensures (((va >> 12) & 0x3FF) << 2) & 3 == 0
  {}

  /** The resolved address: the page field plus the offset inside the page.
      The page field has its 12 low bits clear, so the sum carries nothing
      into the page part and equals the bitwise or. */
  function ResolvedAddress(page: bv32, va: bv32): (r: bv32)
    requires page & PAGE_OFFSET_MASK == 0
    ensures r == page | (va & PAGE_OFFSET_MASK)
  {
    AddIsOr(page, va);
    page + (va & PAGE_OFFSET_MASK)
  }

  lemma AddIsOr(page: bv32, va: bv32)
    requires page & PAGE_OFFSET_MASK == 0
    ensures page + (va & PAGE_OFFSET_MASK) == page | (va & PAGE_OFFSET_MASK)
  {}

  lemma OrKeepsOffset(page: bv32, va: bv32)
    requires page & PAGE_OFFSET_MASK == 0
    ensures (page | (va & PAGE_OFFSET_MASK)) & PAGE_OFFSET_MASK == va & PAGE_OFFSET_MASK
  {}

  lemma OrKeepsPage(page: bv32, va: bv32)
    requires page & PAGE_OFFSET_MASK == 0
    ensures (page | (va & PAGE_OFFSET_MASK)) & 0xFFFF_F000 == page
  {}

  /** The resolved address splits into the page field (bits 31-12) and the
      low 12 bits of the virtual address. */
  lemma ResolvedAddressSplits(page: bv32, va: bv32)
    requires page & PAGE_OFFSET_MASK == 0
    ensures ResolvedAddress(page, va) & PAGE_OFFSET_MASK == va & PAGE_OFFSET_MASK
    ensures ResolvedAddress(page, va) & 0xFFFF_F000 == page
  {
    OrKeepsOffset(page, va);
    OrKeepsPage(page, va);
  }

  /** The three reads of the walk, in the order the source makes them. */
  datatype Stage = DirectoryEntry | PageTableEntry | PageEntry

  /** What the walk reports: the address of the page-table entry (`dte_addr`
      after the index is added), the address of the page entry (`pte_addr`),
      the masked page field (`page_addr`) and the resolved address. */
  datatype Translation = Translation(dte: U64, pte: U64, page: bv32, addr: bv32)

  datatype WalkResult =
    | ReadFailed(stage: Stage)   // a read returned non-zero: -1
    | Clear                      // "iommu is clear": returns 0, reads no more
    | Unresolved(t: Translation) // the page field is zero: -1
    | Resolved(t: Translation)

  /** The page field keeps none of the 12 offset bits. */
  lemma PageFieldAligned(pg: bv32)
    ensures (pg & PAGE_ADDR_MASK) & PAGE_OFFSET_MASK == 0
  {}

  /** `dte_addr += DirectoryOffset(va)`: the slot of the page-table entry,
      found by bits 31-22 of the virtual address. */
  function TableEntryAddress(dirEntry: bv32, va: bv32): U64
  {
    dirEntry as nat + DirectoryOffset(va) as nat
  }

  /** The slot is entry `va[31:22]` of a table of 4-byte entries. */
  lemma TableEntryAddressIsIndex(dirEntry: bv32, va: bv32)
    ensures TableEntryAddress(dirEntry, va)
         == dirEntry as nat + (((va >> 22) & 0x3FF) << 2) as nat
  {}

  /** `(pte_addr & (0xFFFFF << 12)) + TableOffset(va)`: the slot of the page
      entry, found by bits 21-12 of the virtual address. */
  function PageEntryAddress(tableEntry: bv32, va: bv32): U64
  {
    (tableEntry & TABLE_ADDR_MASK) as nat + TableOffset(va) as nat
  }

  /** The slot is entry `va[21:12]` of the 4 KiB-aligned table the entry names. */
  lemma PageEntryAddressIsIndex(tableEntry: bv32, va: bv32)
    ensures PageEntryAddress(tableEntry, va)
         == (tableEntry & TABLE_ADDR_MASK) as nat + (((va >> 12) & 0x3FF) << 2) as nat
  {}

  /** The walk of io.c:106-139 over an entry reader. */
  function Walk(read: U64 -> Option<bv32>, base: U64, va: bv32): (r: WalkResult)
    ensures r == ReadFailed(DirectoryEntry) <==> read(base).None?
    ensures r == Clear <==> read(base) == Some(NOT_CONFIGURED)
  {
    match read(base)
    case None => ReadFailed(DirectoryEntry)
    case Some(d) =>
      if d == NOT_CONFIGURED then Clear
      else WalkTable(read, TableEntryAddress(d, va), va)
  }

  /** The walk from the page-table entry on. */
  function WalkTable(read: U64 -> Option<bv32>, dte: U64, va: bv32): (r: WalkResult)
    ensures !r.Clear? && r != ReadFailed(DirectoryEntry)
  {
    match read(dte)
    case None => ReadFailed(PageTableEntry)
    case Some(pt) =>
      var pte := PageEntryAddress(pt, va);
      WalkPage(read(pte), dte, pte, va)
  }

  /** The last step, given what the read of the page entry at `pte` gave. */
  function WalkPage(entry: Option<bv32>, dte: U64, pte: U64, va: bv32): (r: WalkResult)
    ensures !r.Clear? && !(r.ReadFailed? && r.stage != PageEntry)
  {
    match entry
    case None => ReadFailed(PageEntry)
    case Some(pg) =>
      var page := pg & PAGE_ADDR_MASK;
      PageFieldAligned(pg);
      var t := Translation(dte, pte, page, ResolvedAddress(page, va));
      if page == 0 then Unresolved(t) else Resolved(t)
  }

  /** A walk that gets past its three reads reports where it read: the
      directory entry indexed by bits 31-22 of the address, the page-table
      entry indexed by bits 21-12, and the page field masked out of the page
      entry; it is unresolved exactly when the page field is zero. */
  lemma WalkTranslation(read: U64 -> Option<bv32>, base: U64, va: bv32)
    requires Walk(read, base, va).Resolved? || Walk(read, base, va).Unresolved?
    ensures var r := Walk(read, base, va);
      && read(base).Some? && read(base).value != NOT_CONFIGURED
      && r.t.dte == TableEntryAddress(read(base).value, va)
      && read(r.t.dte).Some?
      && r.t.pte == PageEntryAddress(read(r.t.dte).value, va)
      && read(r.t.pte).Some?
      && r.t.page == read(r.t.pte).value & PAGE_ADDR_MASK
      && r.t.addr == ResolvedAddress(r.t.page, va)
      && (r.Unresolved? <==> r.t.page == 0)
  {}

  /** The resolved address keeps the page field and the page offset of the
      virtual address. */
  lemma WalkResolvesInPage(read: U64 -> Option<bv32>, base: U64, va: bv32)
    requires Walk(read, base, va).Resolved?
    ensures var t := Walk(read, base, va).t;
      && t.addr & PAGE_OFFSET_MASK == va & PAGE_OFFSET_MASK
      && t.addr & 0xFFFF_F000 == t.page
  {
    var t := Walk(read, base, va).t;
    assert t.page & PAGE_OFFSET_MASK == 0 && t.addr == ResolvedAddress(t.page, va) by {
      WalkTranslation(read, base, va);
      PageFieldAligned(read(t.pte).value);
    }
    ResolvedAddressSplits(t.page, va);
  }

  /** The addresses the walk reads, in order. */
  function Consulted(read: U64 -> Option<bv32>, base: U64, va: bv32): (r: seq<U64>)
    ensures 1 <= |r| <= 3 && r[0] == base
  {
    match read(base)
    case None => [base]
    case Some(d) =>
      if d == NOT_CONFIGURED then [base]
      else
        var dte := TableEntryAddress(d, va);
        match read(dte)
        case None => [base, dte]
        case Some(pt) => [base, dte, PageEntryAddress(pt, va)]
  }

  /** The walk fails exactly when the last address it consulted could not be
      read, at the stage that address belongs to; it gets to a translation
      exactly when all three reads succeed. */
  lemma WalkStages(read: U64 -> Option<bv32>, base: U64, va: bv32)
    ensures var r, c := Walk(read, base, va), Consulted(read, base, va);
      && (r.ReadFailed? <==> read(c[|c| - 1]).None?)
      && (r.ReadFailed? ==>
            && (r.stage == DirectoryEntry <==> |c| == 1)
            && (r.stage == PageTableEntry <==> |c| == 2)
            && (r.stage == PageEntry <==> |c| == 3))
      && ((r.Resolved? || r.Unresolved?) <==> |c| == 3 && read(c[2]).Some?)
  {}

  /** An all-ones directory entry ends the walk after its first read. */
  lemma ClearReadsOnlyBase(read: U64 -> Option<bv32>, base: U64, va: bv32)
    requires read(base) == Some(NOT_CONFIGURED)
    ensures Walk(read, base, va) == Clear && Consulted(read, base, va) == [base]
  {}

  /** The walk depends on nothing but the entries at the addresses it reads:
      two memories that agree there walk alike. */
  lemma WalkReadsOnlyConsulted(r1: U64 -> Option<bv32>, r2: U64 -> Option<bv32>,
                               base: U64, va: bv32)
    requires forall a :: a in Consulted(r1, base, va) ==> r1(a) == r2(a)
    ensures Walk(r2, base, va) == Walk(r1, base, va)
    ensures Consulted(r2, base, va) == Consulted(r1, base, va)
  {
    assert r1(base) == r2(base);
    if r1(base).Some? && r1(base).value != NOT_CONFIGURED {
      var dte := TableEntryAddress(r1(base).value, va);
      assert r1(dte) == r2(dte);
      if r1(dte).Some? {
        var pte := PageEntryAddress(r1(dte).value, va);
        assert r1(pte) == r2(pte);
      }
      assert WalkTable(r1, dte, va) == WalkTable(r2, dte, va);
    }
  }

  /** Through `mem_read`, a walk over a zero table base fails at its first
      read: `mem_read` refuses a zero address with -EINVAL. */
  lemma ZeroBaseFails(os: Os, mem: nat -> Byte, k: nat, va: bv32)
    ensures Walk(EntryReader(os, mem, k), 0, va) == ReadFailed(DirectoryEntry)
  {
    assert EntryReader(os, mem, k)(0) == ReadEntry(os, mem, k, 0);
  }

  /** What the diagnostic dump after a resolved walk shows. */
  datatype Dump =
    | NoDump                 // not reached, or open or mmap failed
    | Shown(rows: seq<Row>)
    | Overrun                // len is not a multiple of iosize

  /** One entry read as the source makes it: `mem_read` of 4 bytes into an
      `unsigned long` that starts at zero. */
  method ReadTableEntry(os: Os, mem: nat -> Byte, k: nat, a: U64)
    returns (ok: bool, entry: bv32)
    requires ValidPageShift(k)
    ensures ok <==> ReadEntry(os, mem, k, a).Some?
    ensures ok ==> ReadEntry(os, mem, k, a) == Some(entry)
  {
    var word := new Byte[8](_ => 0);
    var ret := MemRead(os, mem, k, a, word, 4, true);
    ok := ret == 0;
    entry := 0;
    if ok {
      assert word[..] == PhysBytes(mem, a, 4) + seq(4, _ => 0 as Byte);
      LeValueZeroTail(PhysBytes(mem, a, 4), 4);
      Pow2Of32();
      // the upper half stayed zero, so `& 0xFFFFFFFF` leaves the value as it is
      entry := LeValue(word[..]) as bv32;
    }
  }

  /** The three reads of io.c:106-139, each through `mem_read`. */
  method WalkEntries(os: Os, mem: nat -> Byte, k: nat, base: U64, va: bv32)
    returns (walk: WalkResult)
    requires ValidPageShift(k)
    ensures walk == Walk(EntryReader(os, mem, k), base, va)
  {
    var ok, d := ReadTableEntry(os, mem, k, base);
    assert EntryReader(os, mem, k)(base) == ReadEntry(os, mem, k, base);
    if !ok {
      return ReadFailed(DirectoryEntry);
    }
    if d == NOT_CONFIGURED {
      return Clear;   // "iommu is clear"
    }
    walk := WalkTableEntries(os, mem, k, TableEntryAddress(d, va), va);
  }

  /** The read of the page-table entry at `dte` and what follows it. */
  method WalkTableEntries(os: Os, mem: nat -> Byte, k: nat, dte: U64, va: bv32)
    returns (walk: WalkResult)
    requires ValidPageShift(k)
    ensures walk == WalkTable(EntryReader(os, mem, k), dte, va)
  {
    var ok, pt := ReadTableEntry(os, mem, k, dte);
    assert EntryReader(os, mem, k)(dte) == ReadEntry(os, mem, k, dte);
    if !ok {
      return ReadFailed(PageTableEntry);
    }
    walk := WalkPageEntry(os, mem, k, dte, PageEntryAddress(pt, va), va);
  }

  /** The read of the page entry at `pte` and the resolved address. */
  method WalkPageEntry(os: Os, mem: nat -> Byte, k: nat, dte: U64, pte: U64, va: bv32)
    returns (walk: WalkResult)
    requires ValidPageShift(k)
    ensures walk == WalkPage(EntryReader(os, mem, k)(pte), dte, pte, va)
  {
    var ok, pg := ReadTableEntry(os, mem, k, pte);
    assert EntryReader(os, mem, k)(pte) == ReadEntry(os, mem, k, pte);
    if !ok {
      return ReadFailed(PageEntry);
    }
    walk := WalkPage(Some(pg), dte, pte, va);
  }

  /** The diagnostic dump of io.c:141-157: open the memory device, map `len`
      bytes at the resolved address and show them with `memread_memory`. */
  method DumpPage(os: Os, mem: nat -> Byte, addr: bv32, len: Length, iosize: nat)
    returns (ret: int, dump: Dump)
    requires IsWidth(iosize)
    ensures var a := addr as nat;
      if !os.openOk(true) || !os.mapOk(a, len, true) then ret == -1 && dump == NoDump
      else if len % iosize != 0 then dump == Overrun
      else dump == Shown(Rows(a, PhysBytes(mem, a, len), iosize))
           && ret == (if os.closeOk then 0 else -1)
  {
    var a: nat := addr as nat;
    if !os.openOk(true) || !os.mapOk(a, len, true) {
      return -1, NoDump;
    }
    if len % iosize != 0 {
      // the countdown in memread_memory never reaches zero
      return -1, Overrun;
    }
    var mapping := new Byte[len](i requires 0 <= i < len => mem(a + i));
    assert mapping[0..len] == PhysBytes(mem, a, len);
    var rows := MemreadMemory(a, mapping, 0, len, iosize);
    dump := Shown(rows);
    ret := if os.closeOk then 0 else -1;
  }

  /** `iommu32_memread`: walk the table, then map `len` bytes at the resolved
      address and show them in `iosize`-wide words. */
  method Iommu32MemRead(os: Os, mem: nat -> Byte, k: nat, base: U64, va: bv32,
                        len: Length, iosize: nat)
    returns (ret: int, walk: WalkResult, dump: Dump)
    requires ValidPageShift(k) && IsWidth(iosize)
    ensures walk == Walk(EntryReader(os, mem, k), base, va)
    ensures walk.ReadFailed? || walk.Unresolved? ==> ret == -1 && dump == NoDump
    ensures walk.Clear? ==> ret == 0 && dump == NoDump
    ensures walk.Resolved? ==>
      var a := walk.t.addr as nat;
      if !os.openOk(true) || !os.mapOk(a, len, true) then ret == -1 && dump == NoDump
      else if len % iosize != 0 then dump == Overrun
      else dump == Shown(Rows(a, PhysBytes(mem, a, len), iosize))
           && ret == (if os.closeOk then 0 else -1)
  {
    walk := WalkEntries(os, mem, k, base, va);
    match walk
    case Clear => ret, dump := 0, NoDump;
    case ReadFailed(_) => ret, dump := -1, NoDump;
    case Unresolved(_) => ret, dump := -1, NoDump;
    case Resolved(t) => ret, dump := DumpPage(os, mem, t.addr, len, iosize);
  }
}
