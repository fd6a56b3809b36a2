/** The x64-specific memory code of kernel/mem/x64/mem-x64.cpp: encoding of
    page table entries (section 4.5 of the Intel 64 and IA-32 Architectures
    Software Developer's Manual, Volume 3A), the table indices of a virtual
    address, the canonical-address test, the carving of 2MB pages into 4kB
    page-table pages, and the scan of the BIOS E820 memory map that seeds the
    physical page bitmap. */
module MemX64 {
  import opened Common

  /** Azalea maps memory in 2MB pages. */
  const MEM_PAGE_SIZE: nat := 0x20_0000
  /** Page tables themselves are 4kB. */
  const TABLE_PAGE_SIZE: nat := 0x1000

  // ---------------------------------------------------------------------
  // Page table entries.
  // ---------------------------------------------------------------------

  /** page_table_entry. The cache type is represented by the PAT index that
      mem_x64_pat_get_val gives for it (encoding) or that is handed to
      mem_x64_pat_decode (decoding). */
  datatype PageTableEntry = PageTableEntry(
    targetAddr: bv64,
    present: bool,
    writable: bool,
    userMode: bool,
    endOfTree: bool,
    patIndex: bv64)

  /** The physical address bits an entry can hold. */
  const ADDR_MASK: bv64 := 0x0007_FFFF_FFFF_F000
  /** The physical address bits of a leaf (2MB) entry: bit 12 holds the PAT bit. */
  const LEAF_ADDR_MASK: bv64 := 0x0007_FFFF_FFF0_0000
  const FLAG_PRESENT: bv64 := 0x01
  const FLAG_WRITABLE: bv64 := 0x02
  const FLAG_USER: bv64 := 0x04
  const FLAG_PWT_PCD: bv64 := 0x18
  const FLAG_END_OF_TREE: bv64 := 0x80
  const FLAG_LEAF_PAT: bv64 := 0x1000

  /** Everything the encoding holds besides the target address: the flags
      in bits 0-2 and 7, PAT bits 0-1 in PWT and PCD (bits 3-4), and PAT
      bit 2 of a leaf entry in bit 12. */
  function FlagBits(pte: PageTableEntry): bv64
  {
    (if pte.endOfTree then FLAG_END_OF_TREE else 0) |
    (if pte.present then FLAG_PRESENT else 0) |
    (if pte.writable then FLAG_WRITABLE else 0) |
    (if pte.userMode then FLAG_USER else 0) |
    ((pte.patIndex & 0x03) << 3) |
    (if pte.endOfTree && pte.patIndex & 0x04 != 0 then FLAG_LEAF_PAT else 0)
  }

  /** The shared body of both encodings. */
  function EncodeBits(pte: PageTableEntry): bv64
  {
    (pte.targetAddr & ADDR_MASK) | FlagBits(pte)
  }

  /** mem_encode_page_table_entry as written: its assertions demand that a
      leaf entry has a PAT index below 4 and a target address with bits
      12-19 clear, so a leaf never gets the PAT bit 12. */
  function EncodeAsWritten(pte: PageTableEntry): (r: bv64)
    requires !pte.endOfTree || pte.patIndex < 4
    requires !pte.endOfTree || pte.targetAddr & 0xF_F000 == 0
    ensures pte.endOfTree ==> r & FLAG_LEAF_PAT == 0
  {
    if pte.endOfTree then LeafPatBitClear(pte.targetAddr, FlagBits(pte)); EncodeBits(pte)
    else EncodeBits(pte)
  }

  lemma LeafPatBitClear(t: bv64, f: bv64)
    requires t & 0xF_F000 == 0 && f & FLAG_LEAF_PAT == 0
    ensures ((t & ADDR_MASK) | f) & FLAG_LEAF_PAT == 0
  {
  }

  /** mem_encode_page_table_entry as its comment describes it: it is the
      entries that point at further tables, not the leaves, that have no
      PAT bit 2, so their index must be below 4. */
  function Encode(pte: PageTableEntry): bv64
    requires !pte.endOfTree ==> pte.patIndex < 4
    requires pte.endOfTree ==> pte.targetAddr & 0xF_F000 == 0
  {
    EncodeBits(pte)
  }

  /** The target address of an encoded entry: bits 20-50 for a leaf (bit 12
      is its PAT bit), bits 12-50 otherwise. */
  function DecodedTarget(encoded: bv64): bv64
  {
    if encoded & FLAG_END_OF_TREE != 0 then encoded & LEAF_ADDR_MASK else encoded & ADDR_MASK
  }

  /** The PAT index of an encoded entry: PWT and PCD, and for a leaf bit 12
      as bit 2. */
  function DecodedPat(encoded: bv64): bv64
  {
    var pwtPcd := (encoded & FLAG_PWT_PCD) >> 3;
    if encoded & FLAG_END_OF_TREE != 0 && encoded & FLAG_LEAF_PAT != 0 then pwtPcd | 0x04 else pwtPcd
  }

  /** mem_decode_page_table_entry. */
  function Decode(encoded: bv64): PageTableEntry
  {
    PageTableEntry(
      DecodedTarget(encoded),
      encoded & FLAG_PRESENT != 0,
      encoded & FLAG_WRITABLE != 0,
      encoded & FLAG_USER != 0,
      encoded & FLAG_END_OF_TREE != 0,
      DecodedPat(encoded))
  }

  /** The decoded target address is the entry with the flag bits masked
      off: 0x0007FFFFFFF00000 for a leaf, 0x0007FFFFFFFFF000 otherwise. */
  lemma DecodedTargetMask(encoded: bv64)
    ensures Decode(encoded).targetAddr ==
      if encoded & FLAG_END_OF_TREE != 0 then encoded & 0x0007_FFFF_FFF0_0000
      else encoded & 0x0007_FFFF_FFFF_F000
  {
  }

  // Each flag survives the encoding.

  lemma EndOfTreeKept(pte: PageTableEntry)
    ensures (EncodeBits(pte) & FLAG_END_OF_TREE != 0) == pte.endOfTree
  {
  }

  lemma PresentKept(pte: PageTableEntry)
    ensures (EncodeBits(pte) & FLAG_PRESENT != 0) == pte.present
  {
  }

  lemma WritableKept(pte: PageTableEntry)
    ensures (EncodeBits(pte) & FLAG_WRITABLE != 0) == pte.writable
  {
  }

  lemma UserKept(pte: PageTableEntry)
    ensures (EncodeBits(pte) & FLAG_USER != 0) == pte.userMode
  {
  }

  /** The target address survives an encoding whose leaf addresses have
      bits 12-19 clear, reduced to the address bits. */
  lemma TargetKept(pte: PageTableEntry)
    requires pte.endOfTree ==> pte.targetAddr & 0xF_F000 == 0
    ensures DecodedTarget(EncodeBits(pte)) == pte.targetAddr & ADDR_MASK
  {
    EndOfTreeKept(pte);
    if pte.endOfTree {
      FlagBitsBelowLeafAddr(pte);
      LeafTarget(pte.targetAddr, FlagBits(pte));
    } else {
      FlagBitsBelowAddr(pte);
      TableTarget(pte.targetAddr, FlagBits(pte));
    }
  }

  lemma FlagBitsBelowLeafAddr(pte: PageTableEntry)
    ensures FlagBits(pte) & LEAF_ADDR_MASK == 0
  {
  }

  lemma FlagBitsBelowAddr(pte: PageTableEntry)
    requires !pte.endOfTree
    ensures FlagBits(pte) & ADDR_MASK == 0
  {
  }

  lemma LeafTarget(t: bv64, f: bv64)
    requires f & LEAF_ADDR_MASK == 0 && t & 0xF_F000 == 0
    ensures ((t & ADDR_MASK) | f) & LEAF_ADDR_MASK == t & ADDR_MASK
  {
  }

  lemma TableTarget(t: bv64, f: bv64)
    requires f & ADDR_MASK == 0
    ensures ((t & ADDR_MASK) | f) & ADDR_MASK == t & ADDR_MASK
  {
  }

  /** The PAT index bits the encoding keeps: bits 0-1 always, bit 2 only in
      a leaf entry. */
  lemma PatKept(pte: PageTableEntry)
    requires pte.patIndex < 8
    requires pte.endOfTree ==> pte.targetAddr & 0xF_F000 == 0
    ensures DecodedPat(EncodeBits(pte)) ==
      if pte.endOfTree then pte.patIndex else pte.patIndex & 3
  {
    EndOfTreeKept(pte);
    if pte.endOfTree {
      LeafPat(pte.targetAddr, FlagBits(pte), pte.patIndex);
    } else {
      TablePat(pte.targetAddr, FlagBits(pte), pte.patIndex);
    }
  }

  lemma LeafPat(t: bv64, f: bv64, pat: bv64)
    requires pat < 8 && t & 0xF_F000 == 0
    requires f & (FLAG_PWT_PCD | FLAG_LEAF_PAT) ==
      ((pat & 0x03) << 3) | (if pat & 0x04 != 0 then FLAG_LEAF_PAT else 0)
    ensures var e := (t & ADDR_MASK) | f;
      (if e & FLAG_LEAF_PAT != 0 then ((e & FLAG_PWT_PCD) >> 3) | 0x04 else (e & FLAG_PWT_PCD) >> 3) == pat
  {
  }

  lemma TablePat(t: bv64, f: bv64, pat: bv64)
    requires f & FLAG_PWT_PCD == (pat & 0x03) << 3
    ensures ((((t & ADDR_MASK) | f) & FLAG_PWT_PCD) >> 3) == pat & 3
  {
  }

  /** Decoding an entry encoded as the comment describes gives back its
      flags, its PAT index (any index below 8 for a leaf) and its target
      address reduced to the bits an entry holds. */
  lemma DecodeEncode(pte: PageTableEntry)
    requires pte.patIndex < 8
    requires !pte.endOfTree ==> pte.patIndex < 4
    requires pte.endOfTree ==> pte.targetAddr & 0xF_F000 == 0
    ensures Decode(Encode(pte)) == pte.(targetAddr := pte.targetAddr & ADDR_MASK)
  {
    EndOfTreeKept(pte);
    PresentKept(pte);
    WritableKept(pte);
    UserKept(pte);
    TargetKept(pte);
    PatKept(pte);
  }

  /** As written, decoding gives back the flags and the target address too,
      but of the PAT index only bits 0-1. */
  lemma DecodeEncodeAsWritten(pte: PageTableEntry)
    requires !pte.endOfTree || pte.patIndex < 4
    requires !pte.endOfTree || pte.targetAddr & 0xF_F000 == 0
    ensures Decode(EncodeAsWritten(pte)) ==
      pte.(targetAddr := pte.targetAddr & ADDR_MASK, patIndex := pte.patIndex & 3)
  {
    EndOfTreeKept(pte);
    PresentKept(pte);
    WritableKept(pte);
    UserKept(pte);
    TargetKept(pte);
    if pte.endOfTree {
      PatKept(pte);
    } else {
      TablePat(pte.targetAddr, FlagBits(pte), pte.patIndex);
    }
  }

  /** As written, a table entry with PAT index 4 passes the assertions and
      loses the index: it decodes as index 0. */
  lemma TablePatIndexLost()
    ensures var pte := PageTableEntry(0x20_0000, true, true, false, false, 4);
      Decode(EncodeAsWritten(pte)).patIndex == 0
  {
  }

  // ---------------------------------------------------------------------
  // Virtual addresses.
  // ---------------------------------------------------------------------

  /** The table indices mem_x64_map_virtual_page picks out of a virtual
      address: shifted right by 21, then by 9 and 9 again, each masked with
      0x1FF. */
  function TableIndices(virt: bv64): (r: (bv64, bv64, bv64))
    ensures r.0 < 512 && r.1 < 512 && r.2 < 512
  {
    var pd := virt >> 21;
    var pdpt := pd >> 9;
    var pml4 := pdpt >> 9;
    (pml4 & 0x1FF, pdpt & 0x1FF, pd & 0x1FF)
  }

  /** The PML4, PDPT and PD indices are bits 39-47, 30-38 and 21-29: with
      the offset in the 2MB page they make up the low 48 bits exactly. */
  lemma TableIndicesCompose(virt: bv64)
    ensures var (pml4, pdpt, pd) := TableIndices(virt);
      (pml4 << 39) | (pdpt << 30) | (pd << 21) | (virt & 0x1F_FFFF) ==
      virt & 0x0000_FFFF_FFFF_FFFF
  {
  }

  /** Addresses in the upper half belong to the kernel. */
  function IsKernelAddress(virt: bv64): (r: bool)
    ensures r <==> virt >= 0x8000_0000_0000_0000
  {
    virt & 0x8000_0000_0000_0000 != 0
  }

  /** mem_is_valid_virt_addr as written: the top 16 bits all clear or all
      set. */
  function IsValidVirtAddrAsWritten(virt: bv64): (r: bool)
    ensures r <==> virt < 0x0001_0000_0000_0000 || virt >= 0xFFFF_0000_0000_0000
  {
    var mask: bv64 := 0xFFFF_0000_0000_0000;
    virt & mask == 0 || virt & mask == mask
  }

  /** A canonical address, as mem_is_valid_virt_addr is documented to test:
      with 48 bits of virtual address, bits 47-63 are all equal. */
  function IsValidVirtAddr(virt: bv64): (r: bool)
    ensures r <==> virt < 0x0000_8000_0000_0000 || virt >= 0xFFFF_8000_0000_0000
    ensures r ==> IsValidVirtAddrAsWritten(virt)
  {
    var mask: bv64 := 0xFFFF_8000_0000_0000;
    virt & mask == 0 || virt & mask == mask
  }

  /** The address just above the lower half passes the written test but is
      not canonical. */
  lemma NonCanonicalAccepted()
    ensures IsValidVirtAddrAsWritten(0x0000_8000_0000_0000)
    ensures !IsValidVirtAddr(0x0000_8000_0000_0000)
  {
  }

  // ---------------------------------------------------------------------
  // 4kB pages for page tables.
  // ---------------------------------------------------------------------

  /** One call of mem_get_next_4kb_page: the page handed out and the next
      value of next_4kb_page (0 standing for nullptr). `newPage` is the 2MB
      page mem_allocate_physical_pages would return; it is used only when
      there is no partly used page. */
  function Carve(next: u64, newPage: u64): (r: (u64, u64))
  {
    var page := if next == 0 then newPage else next;
    var after := Wrap64(page + TABLE_PAGE_SIZE);
    (page, if after % MEM_PAGE_SIZE == 0 then 0 else after)
  }

  /** Starting from no partly used page, the i-th call (counting from 0)
      returns the i-th 4kB page of the newPage 2MB page, and the 512th call
      uses the page up, so the next one asks for a newPage page again. */
  lemma CarveSequence(newPage: u64, i: nat)
    requires newPage % MEM_PAGE_SIZE == 0 && newPage + MEM_PAGE_SIZE <= TWO_TO_64 && newPage != 0
    requires i < 512
    ensures Carve(if i == 0 then 0 else newPage + i * TABLE_PAGE_SIZE, newPage) ==
      (newPage + i * TABLE_PAGE_SIZE, if i == 511 then 0 else newPage + (i + 1) * TABLE_PAGE_SIZE)
  {
    var q := newPage / MEM_PAGE_SIZE;
    assert newPage == q * MEM_PAGE_SIZE;
    var a := newPage + (i + 1) * TABLE_PAGE_SIZE;
    assert (i + 1) * TABLE_PAGE_SIZE <= MEM_PAGE_SIZE;
    if i == 511 {
      assert a == (q + 1) * MEM_PAGE_SIZE;
      if a < TWO_TO_64 {
        ModOfOffset(q + 1, 0);
      }
    } else {
      assert a == q * MEM_PAGE_SIZE + (i + 1) * TABLE_PAGE_SIZE;
      assert 0 < (i + 1) * TABLE_PAGE_SIZE < MEM_PAGE_SIZE;
      ModOfOffset(q, (i + 1) * TABLE_PAGE_SIZE);
    }
  }

  lemma ModOfOffset(q: nat, r: nat)
    requires r < MEM_PAGE_SIZE
    ensures (q * MEM_PAGE_SIZE + r) % MEM_PAGE_SIZE == r
  {
  }

  /** A carved page never reaches past the 2MB page it came from: a
      4kB-aligned page leaves a 4kB-aligned follower in the same 2MB page, or
      none at all. */
  lemma CarveStaysInPage(next: u64, newPage: u64)
    requires next % TABLE_PAGE_SIZE == 0 && newPage % TABLE_PAGE_SIZE == 0
    requires (if next == 0 then newPage else next) + TABLE_PAGE_SIZE < TWO_TO_64
    ensures var (page, after) := Carve(next, newPage);
      page % TABLE_PAGE_SIZE == 0 &&
      (after == 0 || (after == page + TABLE_PAGE_SIZE && after / MEM_PAGE_SIZE == page / MEM_PAGE_SIZE))
  {
    var page := if next == 0 then newPage else next;
    var after := page + TABLE_PAGE_SIZE;
    if after % MEM_PAGE_SIZE != 0 {
      SameBigPage(page);
    }
  }

  lemma SameBigPage(page: nat)
    requires page % TABLE_PAGE_SIZE == 0 && (page + TABLE_PAGE_SIZE) % MEM_PAGE_SIZE != 0
    ensures (page + TABLE_PAGE_SIZE) / MEM_PAGE_SIZE == page / MEM_PAGE_SIZE
  {
    var q := page / MEM_PAGE_SIZE;
    var r := page % MEM_PAGE_SIZE;
    assert page == q * MEM_PAGE_SIZE + r;
    assert r % TABLE_PAGE_SIZE == 0;
    assert r + TABLE_PAGE_SIZE != MEM_PAGE_SIZE;
    assert r + TABLE_PAGE_SIZE < MEM_PAGE_SIZE;
    ModOfOffset(q, r + TABLE_PAGE_SIZE);
  }

  /** The static next_4kb_page pointer and the function that advances it. */
  class TablePageCarver {
    /** next_4kb_page; 0 stands for nullptr. */
    var next4kbPage: u64

    constructor ()
      ensures next4kbPage == 0
    {
      next4kbPage := 0;
    }

    /** mem_get_next_4kb_page, with `newPage` the page the physical allocator
        would hand out. */
    method GetNext4kbPage(newPage: u64) returns (page: u64)
      modifies this
      ensures (page, next4kbPage) == Carve(old(next4kbPage), newPage)
    {
      if next4kbPage == 0 {
        next4kbPage := newPage;
      }
      page := next4kbPage;
      next4kbPage := Wrap64(next4kbPage + TABLE_PAGE_SIZE);
      if next4kbPage % MEM_PAGE_SIZE == 0 {
        next4kbPage := 0;
      }
    }
  }

  // ---------------------------------------------------------------------
  // The E820 memory map.
  // ---------------------------------------------------------------------

  /** e820_record: 24 bytes in memory. */
  datatype E820Record = E820Record(size: u32, startAddr: u64, length: u64, memoryType: u32)

  const E820_RECORD_SIZE: nat := 24

  /** The all-zero record that ends the map early. */
  predicate IsTerminator(rec: E820Record)
  {
    rec.startAddr == 0 && rec.length == 0 && rec.memoryType == 0
  }

  /** The number of records mem_gen_phys_pages_bitmap reads, counting from
      record i: it stops at the first all-zero record or once table_length
      bytes have been read. */
  function RecordsRead(records: seq<E820Record>, tableLength: nat, i: nat): (n: nat)
    requires i <= |records| && tableLength <= E820_RECORD_SIZE * |records|
    ensures i <= n <= |records|
    ensures forall j :: i <= j < n ==> !IsTerminator(records[j]) && E820_RECORD_SIZE * j < tableLength
    ensures n == |records| || IsTerminator(records[n]) || E820_RECORD_SIZE * n >= tableLength
    decreases |records| - i
  {
    if i < |records| && !IsTerminator(records[i]) && E820_RECORD_SIZE * i < tableLength then
      RecordsRead(records, tableLength, i + 1)
    else
      i
  }

  /** The first address of a record rounded up to a 2MB boundary, in uint64
      arithmetic. */
  function RoundedStart(rec: E820Record): u64
  {
    if rec.startAddr % MEM_PAGE_SIZE != 0 then
      Wrap64(rec.startAddr + MEM_PAGE_SIZE - rec.startAddr % MEM_PAGE_SIZE)
    else rec.startAddr
  }

  /** The end of a record rounded down to a 2MB boundary, in uint64 arithmetic. */
  function RoundedEnd(rec: E820Record): u64
  {
    var e := Wrap64(rec.startAddr + rec.length);
    if e % MEM_PAGE_SIZE != 0 then e - e % MEM_PAGE_SIZE else e
  }

  /** The nonzero pages among the n pages from start, in ascending order. */
  function PageRun(start: nat, n: nat): seq<nat>
  {
    if n == 0 then []
    else
      var page := start + (n - 1) * MEM_PAGE_SIZE;
      PageRun(start, n - 1) + (if page != 0 then [page] else [])
  }

  /** The pages a record contributes to the bitmap. */
  function RecordPages(rec: E820Record): seq<nat>
  {
    var s := RoundedStart(rec);
    var e := RoundedEnd(rec);
    if rec.memoryType == 1 && e > s then PageRun(s, (e - s) / MEM_PAGE_SIZE) else []
  }

  /** The pages of each record. */
  function PagesPerRecord(records: seq<E820Record>): (parts: seq<seq<nat>>)
    ensures |parts| == |records|
    ensures forall j :: 0 <= j < |records| ==> parts[j] == RecordPages(records[j])
  {
    seq(|records|, j requires 0 <= j < |records| => RecordPages(records[j]))
  }

  /** The parts one after the other. */
  function Flatten(parts: seq<seq<nat>>): seq<nat>
  {
    if parts == [] then [] else Flatten(parts[..|parts| - 1]) + parts[|parts| - 1]
  }

  /** The pages of a sequence of records, in the order they are marked. */
  function MapPages(records: seq<E820Record>): seq<nat>
  {
    Flatten(PagesPerRecord(records))
  }

  lemma {:induction false} FlattenMembers(parts: seq<seq<nat>>, x: nat)
    ensures x in Flatten(parts) <==> exists j :: 0 <= j < |parts| && x in parts[j]
  {
    if parts != [] {
      var init := parts[..|parts| - 1];
      FlattenMembers(init, x);
      if x in Flatten(init) {
        var j :| 0 <= j < |init| && x in init[j];
        assert parts[j] == init[j];
      }
      if j :| 0 <= j < |parts| && x in parts[j] {
        if j < |init| {
          assert parts[j] == init[j];
        }
      }
    }
  }

  lemma {:induction false} PageRunMembers(start: nat, n: nat, x: nat)
    requires start % MEM_PAGE_SIZE == 0
    ensures x in PageRun(start, n) <==>
      x != 0 && x % MEM_PAGE_SIZE == 0 && start <= x < start + n * MEM_PAGE_SIZE
  {
    if n > 0 {
      PageRunMembers(start, n - 1, x);
      var last := start + (n - 1) * MEM_PAGE_SIZE;
      if x != 0 && x % MEM_PAGE_SIZE == 0 && start <= x < start + n * MEM_PAGE_SIZE && x != last {
        AlignedGap(start, x, n);
      }
      if x == last {
        assert x % MEM_PAGE_SIZE == 0 by { AlignedStep(start, n - 1); }
      }
    }
  }

  lemma AlignedStep(start: nat, k: nat)
    requires start % MEM_PAGE_SIZE == 0
    ensures (start + k * MEM_PAGE_SIZE) % MEM_PAGE_SIZE == 0
  {
    var q := start / MEM_PAGE_SIZE;
    assert start + k * MEM_PAGE_SIZE == (q + k) * MEM_PAGE_SIZE;
  }

  /** Aligned addresses below the last page of a run are below it by a
      whole page. */
  lemma AlignedGap(start: nat, x: nat, n: nat)
    requires n > 0 && start % MEM_PAGE_SIZE == 0 && x % MEM_PAGE_SIZE == 0
    requires start <= x < start + n * MEM_PAGE_SIZE && x != start + (n - 1) * MEM_PAGE_SIZE
    ensures x < start + (n - 1) * MEM_PAGE_SIZE
  {
    var a := start / MEM_PAGE_SIZE;
    var b := x / MEM_PAGE_SIZE;
    assert start == a * MEM_PAGE_SIZE && x == b * MEM_PAGE_SIZE;
    assert b < a + n;
  }

  /** Exactly the usable 2MB pages: a page is marked for a record iff the
      record is usable RAM (type 1), the page is not page 0 and it lies
      wholly inside the record (as long as the record does not reach the
      top of the address space, where the uint64 sums would wrap). */
  lemma RecordPagesExact(rec: E820Record, x: nat)
    requires rec.startAddr + rec.length + MEM_PAGE_SIZE <= TWO_TO_64
    ensures x in RecordPages(rec) <==>
      rec.memoryType == 1 && x != 0 && x % MEM_PAGE_SIZE == 0 &&
      rec.startAddr <= x && x + MEM_PAGE_SIZE <= rec.startAddr + rec.length
  {
    var s := RoundedStart(rec);
    var e := RoundedEnd(rec);
    RoundedBounds(rec);
    if rec.memoryType == 1 && e > s {
      var n := (e - s) / MEM_PAGE_SIZE;
      assert s + n * MEM_PAGE_SIZE == e by { DivExact(s, e); }
      PageRunMembers(s, n, x);
      if x % MEM_PAGE_SIZE == 0 {
        AlignedBounds(rec, x);
      }
    } else if rec.memoryType == 1 && x % MEM_PAGE_SIZE == 0 {
      AlignedBounds(rec, x);
    }
  }

  lemma DivExact(s: nat, e: nat)
    requires s % MEM_PAGE_SIZE == 0 && e % MEM_PAGE_SIZE == 0 && s <= e
    ensures s + (e - s) / MEM_PAGE_SIZE * MEM_PAGE_SIZE == e
  {
    var a := s / MEM_PAGE_SIZE;
    var b := e / MEM_PAGE_SIZE;
    assert s == a * MEM_PAGE_SIZE && e == b * MEM_PAGE_SIZE;
    assert e - s == (b - a) * MEM_PAGE_SIZE;
  }

  /** The rounded bounds are aligned, and without wrap-around they are the
      smallest aligned address at or above the start and the largest at or
      below the end. */
  lemma RoundedBounds(rec: E820Record)
    requires rec.startAddr + rec.length + MEM_PAGE_SIZE <= TWO_TO_64
    ensures RoundedStart(rec) % MEM_PAGE_SIZE == 0 && RoundedEnd(rec) % MEM_PAGE_SIZE == 0
    ensures rec.startAddr <= RoundedStart(rec) < rec.startAddr + MEM_PAGE_SIZE
    ensures RoundedEnd(rec) <= rec.startAddr + rec.length < RoundedEnd(rec) + MEM_PAGE_SIZE
  {
    var st := rec.startAddr;
    var q := st / MEM_PAGE_SIZE;
    var r := st % MEM_PAGE_SIZE;
    assert st == q * MEM_PAGE_SIZE + r;
    if r != 0 {
      assert st + MEM_PAGE_SIZE - r == (q + 1) * MEM_PAGE_SIZE;
    }
  }

  /** An aligned address lies at or above a record's start iff it lies at
      or above the rounded start, and its page ends inside the record iff
      it lies below the rounded end. */
  lemma AlignedBounds(rec: E820Record, x: nat)
    requires rec.startAddr + rec.length + MEM_PAGE_SIZE <= TWO_TO_64
    requires x % MEM_PAGE_SIZE == 0
    ensures rec.startAddr <= x <==> RoundedStart(rec) <= x
    ensures x + MEM_PAGE_SIZE <= rec.startAddr + rec.length <==> x < RoundedEnd(rec)
  {
    RoundedBounds(rec);
    var s := RoundedStart(rec);
    var e := RoundedEnd(rec);
    var b := x / MEM_PAGE_SIZE;
    assert x == b * MEM_PAGE_SIZE;
    var sq := s / MEM_PAGE_SIZE;
    assert s == sq * MEM_PAGE_SIZE;
    var eq := e / MEM_PAGE_SIZE;
    assert e == eq * MEM_PAGE_SIZE;
    if x < e {
      assert b < eq;
      assert x + MEM_PAGE_SIZE <= e;
    }
    if x >= e {
      assert b >= eq;
    }
  }

  /** A page is marked iff one of the records contributes it. */
  lemma MapPagesMembers(records: seq<E820Record>, x: nat)
    ensures x in MapPages(records) <==> exists j :: 0 <= j < |records| && x in RecordPages(records[j])
  {
    var parts := PagesPerRecord(records);
    FlattenMembers(parts, x);
    if j :| 0 <= j < |records| && x in RecordPages(records[j]) {
      assert x in parts[j];
    }
  }

  /** One more record read appends its pages. */
  lemma MapPagesExtend(records: seq<E820Record>, r: nat)
    requires r < |records|
    ensures MapPages(records[..r + 1]) == MapPages(records[..r]) + RecordPages(records[r])
  {
    var parts := PagesPerRecord(records[..r + 1]);
    assert parts[..r] == PagesPerRecord(records[..r]);
  }

  /** The body of the marking loop of mem_gen_phys_pages_bitmap for one
      record: the addresses handed to mem_set_bitmap_page_bit, in order. */
  method MarkRecord(rec: E820Record) returns (marked: seq<nat>)
    ensures marked == RecordPages(rec)
  {
    marked := [];
    if rec.memoryType == 1 {
      var startAddr := rec.startAddr;
      if startAddr % MEM_PAGE_SIZE != 0 {
        startAddr := Wrap64(startAddr + MEM_PAGE_SIZE - startAddr % MEM_PAGE_SIZE);
      }
      assert startAddr == RoundedStart(rec);
      var endAddr := Wrap64(rec.startAddr + rec.length);
      if endAddr % MEM_PAGE_SIZE != 0 {
        endAddr := endAddr - endAddr % MEM_PAGE_SIZE;
      }
      assert endAddr == RoundedEnd(rec);
      if endAddr > startAddr {
        var numberOfPages := (endAddr - startAddr) / MEM_PAGE_SIZE;
        ghost var s0 := startAddr;
        var i := 0;
        while i < numberOfPages
          invariant 0 <= i <= numberOfPages
          invariant startAddr == s0 + i * MEM_PAGE_SIZE
          invariant marked == PageRun(s0, i)
        {
          assert PageRun(s0, i + 1) == PageRun(s0, i) + (if startAddr != 0 then [startAddr] else []);
          if startAddr != 0 {
            marked := marked + [startAddr];
          }
          startAddr := startAddr + MEM_PAGE_SIZE;
          i := i + 1;
        }
      }
    }
  }

  /** The marking loop of mem_gen_phys_pages_bitmap: the addresses handed to
      mem_set_bitmap_page_bit, in the order they are marked. The map's
      records are `records`; table_length is at least one record and no
      longer than the records there are. */
  method GenPhysPagesMarks(records: seq<E820Record>, tableLength: nat) returns (marked: seq<nat>)
    requires E820_RECORD_SIZE <= tableLength <= E820_RECORD_SIZE * |records|
    ensures marked == MapPages(records[..RecordsRead(records, tableLength, 0)])
  {
    ghost var count := RecordsRead(records, tableLength, 0);
    var r := 0;
    var bytesRead := 0;
    marked := [];
    while r < |records| && !IsTerminator(records[r]) && bytesRead < tableLength
      invariant r <= count && bytesRead == E820_RECORD_SIZE * r
      invariant RecordsRead(records, tableLength, r) == count
      invariant marked == MapPages(records[..r])
      decreases |records| - r
    {
      var rec := records[r];
      var pages := MarkRecord(rec);
      marked := marked + pages;
      MapPagesExtend(records, r);
      r := r + 1;
      bytesRead := bytesRead + E820_RECORD_SIZE;
    }
  }
}
