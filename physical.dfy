/** The physical page allocator of kernel/mem/physical.cpp: one bit per 2MB
    page in an array of 64-bit words, a 1 meaning the page is FREE. Page p
    lives in word p / 64 under the mask 0x8000000000000000 >> (p % 64). A
    second bitmap records which pages exist at all, and free_pages counts
    the free ones. */
module PhysicalMemory {
  import MemX64

  const SIZE_OF_PAGE: nat := 2097152

  const TOP_BIT: bv64 := 0x8000_0000_0000_0000

  /** The mask of bit position k of a word, counting from the most
      significant bit: 0x8000000000000000 shifted right k places. */
  function Mask(k: nat): bv64
    requires k < 64
  {
    if k == 0 then TOP_BIT else Mask(k - 1) >> 1
  }

  /** word & mask != 0: some bit of the mask is set in the word. */
  predicate AnyBit(w: bv64, mask: bv64)
  {
    w & mask != 0
  }

  /** word | mask and word & ~mask, the two updates of the source. */
  function WithBits(w: bv64, mask: bv64): bv64
  {
    w | mask
  }

  function WithoutBits(w: bv64, mask: bv64): bv64
  {
    w & !mask
  }

  /** Shifting a mask right by one moves it one position down. */
  lemma {:induction false} MaskStep(k: nat)
    requires k < 63
    ensures Mask(k + 1) == Mask(k) >> 1
  {
  }

  lemma {:induction false} MaskJump(k: nat)
    requires k < 56
    ensures Mask(k + 8) == Mask(k) >> 8
  {
    MaskStep(k);
    MaskStep(k + 1);
    MaskStep(k + 2);
    MaskStep(k + 3);
    MaskStep(k + 4);
    MaskStep(k + 5);
    MaskStep(k + 6);
    MaskStep(k + 7);
  }

  /** The mask of the last position is 1, where the counting loop starts. */
  lemma {:induction false} MaskLast()
    ensures Mask(63) == 1
  {
    MaskJump(0);
    MaskJump(8);
    MaskJump(16);
    MaskJump(24);
    MaskJump(32);
    MaskJump(40);
    MaskJump(48);
    MaskJump(55);
  }

  lemma {:induction false} MaskNonzero(k: nat)
    requires k < 64
    ensures Mask(k) != 0
    decreases 63 - k
  {
    if k < 63 {
      MaskNonzero(k + 1);
    } else {
      MaskLast();
    }
  }

  /** Two different positions have disjoint masks. */
  lemma {:induction false} MasksDisjoint(i: nat, j: nat)
    requires i < 64 && j < 64 && i != j
    ensures Mask(i) & Mask(j) == 0
  {
    if i == 0 {
      TopNotBelow(j);
    } else if j == 0 {
      TopNotBelow(i);
    } else {
      MasksDisjoint(i - 1, j - 1);
      ShiftedMasks(i, j);
    }
  }

  lemma {:induction false} TopNotBelow(k: nat)
    requires 0 < k < 64
    ensures Mask(0) & Mask(k) == 0 && Mask(k) & Mask(0) == 0
  {
  }

  lemma {:induction false} ShiftedMasks(i: nat, j: nat)
    requires 0 < i < 64 && 0 < j < 64
    ensures Mask(i) & Mask(j) == (Mask(i - 1) & Mask(j - 1)) >> 1
  {
  }

  /** Shifting a mask left by one moves it one position up. */
  lemma {:induction false} MaskShiftLeft(k: nat)
    requires 0 < k < 64
    ensures Mask(k) << 1 == Mask(k - 1)
  {
    MaskLast();
    MasksDisjoint(k - 1, 63);
    EvenMaskShift(k);
  }

  /** The counting loop's step, from position 63 - j to the one above. */
  lemma {:induction false} MaskUp(j: nat)
    requires j < 63
    ensures Mask(63 - j) << 1 == Mask(63 - (j + 1))
  {
    MaskShiftLeft(63 - j);
  }

  lemma {:induction false} EvenMaskShift(k: nat)
    requires 0 < k < 64 && Mask(k - 1) & 1 == 0
    ensures Mask(k) << 1 == Mask(k - 1)
  {
  }

  /** Setting the bit of position i sets it and leaves every other
      position as it was. */
  lemma {:induction false} SetSameBit(w: bv64, k: nat)
    requires k < 64
    ensures AnyBit(WithBits(w, Mask(k)), Mask(k))
  {
    MaskNonzero(k);
  }

  lemma {:induction false} SetOtherBit(w: bv64, i: nat, j: nat, m: bv64, n: bv64)
    requires i < 64 && j < 64 && i != j && m == Mask(i) && n == Mask(j)
    ensures AnyBit(WithBits(w, m), n) == AnyBit(w, n)
  {
    MasksDisjoint(i, j);
    OrDisjoint(w, m, n);
  }

  /** A word's bits under a mask stay as they were when a disjoint mask is
      set or cleared. */
  lemma {:induction false} OrDisjoint(w: bv64, m: bv64, n: bv64)
    requires m & n == 0
    ensures AnyBit(WithBits(w, m), n) == AnyBit(w, n)
  {
  }

  /** Clearing the bit of position i clears it and leaves every other
      position as it was. */
  lemma {:induction false} ClearSameBit(w: bv64, k: nat)
    requires k < 64
    ensures !AnyBit(WithoutBits(w, Mask(k)), Mask(k))
  {
  }

  lemma {:induction false} ClearOtherBit(w: bv64, i: nat, j: nat, m: bv64, n: bv64)
    requires i < 64 && j < 64 && i != j && m == Mask(i) && n == Mask(j)
    ensures AnyBit(WithoutBits(w, m), n) == AnyBit(w, n)
  {
    MasksDisjoint(i, j);
    AndNotDisjoint(w, m, n);
  }

  lemma {:induction false} AndNotDisjoint(w: bv64, m: bv64, n: bv64)
    requires m & n == 0
    ensures AnyBit(WithoutBits(w, m), n) == AnyBit(w, n)
  {
  }

  /** The word and bit position of page p. */
  function WordOf(p: nat): nat
  {
    p / 64
  }

  function BitOf(p: nat): (k: nat)
    ensures k < 64
  {
    p % 64
  }

  /** Page p is marked (free, or existing) in the bitmap bm. */
  ghost predicate PageMarked(bm: seq<bv64>, p: nat)
  {
    WordOf(p) < |bm| && AnyBit(bm[WordOf(p)], Mask(BitOf(p)))
  }

  /** The pages a bitmap marks. */
  ghost function Marked(bm: seq<bv64>): set<nat>
  {
    set p: nat | p < 64 * |bm| && PageMarked(bm, p)
  }

  /** The bitmap with page p's bit set, as mem_set_bitmap_page_bit leaves it. */
  function SetPage(bm: seq<bv64>, p: nat): (r: seq<bv64>)
    requires WordOf(p) < |bm|
    ensures |r| == |bm|
  {
    bm[WordOf(p) := WithBits(bm[WordOf(p)], Mask(BitOf(p)))]
  }

  /** The bitmap with page p's bit cleared, as mem_clear_bitmap_page_bit
      leaves it. */
  function ClearPage(bm: seq<bv64>, p: nat): (r: seq<bv64>)
    requires WordOf(p) < |bm|
    ensures |r| == |bm|
  {
    bm[WordOf(p) := WithoutBits(bm[WordOf(p)], Mask(BitOf(p)))]
  }

  /** Two pages of the same word differ in their bit position. */
  lemma {:induction false} SameWordOtherBit(p: nat, q: nat)
    requires WordOf(p) == WordOf(q) && p != q
    ensures BitOf(p) != BitOf(q)
  {
  }

  lemma {:induction false} PageAfterSet(bm: seq<bv64>, p: nat, q: nat)
    requires WordOf(p) < |bm|
    ensures PageMarked(SetPage(bm, p), q) == (PageMarked(bm, q) || (q == p))
  {
    if WordOf(q) != WordOf(p) {
      OtherWordKept(bm, WordOf(p), WithBits(bm[WordOf(p)], Mask(BitOf(p))), q);
    } else if q == p {
      SetPageMarks(bm, p);
    } else {
      SetNeighbour(bm, p, q);
    }
  }

  lemma {:induction false} SetPageMarks(bm: seq<bv64>, p: nat)
    requires WordOf(p) < |bm|
    ensures PageMarked(SetPage(bm, p), p)
  {
    SetSameBit(bm[WordOf(p)], BitOf(p));
  }

  lemma {:induction false} SetNeighbour(bm: seq<bv64>, p: nat, q: nat)
    requires WordOf(p) < |bm| && WordOf(q) == WordOf(p) && q != p
    ensures PageMarked(SetPage(bm, p), q) == PageMarked(bm, q)
  {
    SameWordOtherBit(p, q);
    SetOtherBit(bm[WordOf(p)], BitOf(p), BitOf(q), Mask(BitOf(p)), Mask(BitOf(q)));
  }

  lemma {:induction false} OtherWordKept(bm: seq<bv64>, w: nat, v: bv64, q: nat)
    requires w < |bm| && WordOf(q) != w
    ensures PageMarked(bm[w := v], q) == PageMarked(bm, q)
  {
    if WordOf(q) < |bm| {
      assert bm[w := v][WordOf(q)] == bm[WordOf(q)];
    }
  }

  lemma {:induction false} PageAfterClear(bm: seq<bv64>, p: nat, q: nat)
    requires WordOf(p) < |bm|
    ensures PageMarked(ClearPage(bm, p), q) == (PageMarked(bm, q) && q != p)
  {
    if WordOf(q) != WordOf(p) {
      OtherWordKept(bm, WordOf(p), WithoutBits(bm[WordOf(p)], Mask(BitOf(p))), q);
    } else if q == p {
      ClearedPage(bm, p);
    } else {
      ClearedNeighbour(bm, p, q);
    }
  }

  lemma {:induction false} ClearedPage(bm: seq<bv64>, p: nat)
    requires WordOf(p) < |bm|
    ensures !PageMarked(ClearPage(bm, p), p)
  {
    ClearSameBit(bm[WordOf(p)], BitOf(p));
  }

  lemma {:induction false} ClearedNeighbour(bm: seq<bv64>, p: nat, q: nat)
    requires WordOf(p) < |bm| && WordOf(q) == WordOf(p) && q != p
    ensures PageMarked(ClearPage(bm, p), q) == PageMarked(bm, q)
  {
    SameWordOtherBit(p, q);
    ClearOtherBit(bm[WordOf(p)], BitOf(p), BitOf(q), Mask(BitOf(p)), Mask(BitOf(q)));
  }

  /** Setting a page's bit marks that page and changes no other. */
  lemma {:induction false} SetPageEffect(bm: seq<bv64>, p: nat)
    requires WordOf(p) < |bm|
    ensures Marked(SetPage(bm, p)) == Marked(bm) + {p}
  {
    forall q: nat ensures PageMarked(SetPage(bm, p), q) == (PageMarked(bm, q) || q == p) {
      PageAfterSet(bm, p, q);
    }
  }

  /** Clearing a page's bit unmarks that page and changes no other. */
  lemma {:induction false} ClearPageEffect(bm: seq<bv64>, p: nat)
    requires WordOf(p) < |bm|
    ensures Marked(ClearPage(bm, p)) == Marked(bm) - {p}
  {
    forall q: nat ensures PageMarked(ClearPage(bm, p), q) == (PageMarked(bm, q) && q != p) {
      PageAfterClear(bm, p, q);
    }
  }

  /** A bitmap in which no page is marked marks nothing. */
  lemma {:induction false} NoneMarked(bm: seq<bv64>)
    requires forall q: nat :: q < 64 * |bm| ==> !PageMarked(bm, q)
    ensures Marked(bm) == {}
  {
  }

  /** The page numbers the addresses in addrs fall in. */
  ghost function PagesOf(addrs: seq<nat>): set<nat>
  {
    if |addrs| == 0 then {} else PagesOf(addrs[..|addrs| - 1]) + {addrs[|addrs| - 1] / SIZE_OF_PAGE}
  }

  lemma {:induction false} PagesOfMembers(addrs: seq<nat>, p: nat)
    ensures p in PagesOf(addrs) <==> exists a :: a in addrs && a / SIZE_OF_PAGE == p
  {
    if |addrs| > 0 {
      var init := addrs[..|addrs| - 1];
      var last := addrs[|addrs| - 1];
      PagesOfMembers(init, p);
      assert forall a :: a in addrs <==> a in init || a == last by {
        assert addrs == init + [last];
      }
      if p in PagesOf(addrs) {
        if p !in PagesOf(init) {
          assert last in addrs && last / SIZE_OF_PAGE == p;
        }
      }
    }
  }

  /** The addresses of the usable pages the E820 map describes, in the order
      mem_gen_phys_pages_bitmap marks them. */
  ghost function UsableAddrs(records: seq<MemX64.E820Record>, tableLength: nat): seq<nat>
    requires tableLength <= MemX64.E820_RECORD_SIZE * |records|
  {
    MemX64.MapPages(records[..MemX64.RecordsRead(records, tableLength, 0)])
  }

  ghost function UsablePages(records: seq<MemX64.E820Record>, tableLength: nat): set<nat>
    requires tableLength <= MemX64.E820_RECORD_SIZE * |records|
  {
    PagesOf(UsableAddrs(records, tableLength))
  }

  /** The pages the kernel image occupies at the base of RAM. */
  ghost function KernelPages(n: nat): set<nat>
  {
    if n == 0 then {} else KernelPages(n - 1) + {n - 1}
  }

  lemma {:induction false} KernelPagesMembers(n: nat, q: nat)
    ensures q in KernelPages(n) <==> q < n
  {
    if n > 0 {
      KernelPagesMembers(n - 1, q);
    }
  }

  /** Bit j of word i is page 64 * i + j. */
  lemma {:induction false} PageOfBit(i: nat, j: nat)
    requires j < 64
    ensures WordOf(64 * i + j) == i && BitOf(64 * i + j) == j
  {
  }

  /** Testing word i against the mask of position j tests page 64 * i + j. */
  lemma {:induction false} WordBit(bm: seq<bv64>, i: nat, j: nat, mask: bv64)
    requires i < |bm| && j < 64 && mask == Mask(j)
    ensures 64 * i + j in Marked(bm) <==> AnyBit(bm[i], mask)
  {
    PageOfBit(i, j);
  }

  /** Clearing the mask of position j in word i clears page 64 * i + j. */
  lemma {:induction false} ClearWordBit(bm: seq<bv64>, i: nat, j: nat, mask: bv64)
    requires i < |bm| && j < 64 && mask == Mask(j)
    ensures ClearPage(bm, 64 * i + j) == bm[i := WithoutBits(bm[i], mask)]
  {
    PageOfBit(i, j);
  }

  lemma {:induction false} ClearedWord(before: seq<bv64>, after: seq<bv64>, i: nat, j: nat, mask: bv64)
    requires i < |before| && j < 64 && mask == Mask(j)
    requires after == before[i := WithoutBits(before[i], mask)]
    ensures Marked(after) == Marked(before) - {64 * i + j}
  {
    ClearWordBit(before, i, j, mask);
    MarkedAfterClear(after, before, 64 * i + j);
  }

  lemma {:induction false} MarkedAfterClear(after: seq<bv64>, before: seq<bv64>, p: nat)
    requires WordOf(p) < |before| && after == ClearPage(before, p)
    ensures Marked(after) == Marked(before) - {p}
  {
    ClearPageEffect(before, p);
  }

  /** The address of a page is a whole number of pages. */
  lemma {:induction false} PageAddress(page: nat)
    ensures (SIZE_OF_PAGE * page) % SIZE_OF_PAGE == 0 && (SIZE_OF_PAGE * page) / SIZE_OF_PAGE == page
  {
  }

  /** A marked page with no marked page below it is the least marked page. */
  lemma {:induction false} LowestMarked(bm: seq<bv64>, page: nat)
    requires page < 64 * |bm| && PageMarked(bm, page)
    requires forall q: nat :: q < page ==> !PageMarked(bm, q)
    ensures page in Marked(bm) && forall q :: q in Marked(bm) ==> page <= q
  {
  }

  lemma {:induction false} RemoveOne(s: set<nat>, x: nat)
    requires x in s
    ensures |s - {x}| == |s| - 1
  {
    assert s == (s - {x}) + {x};
  }

  /** No page bit is set in the words before word i, nor in the first j
      positions of word i: what the allocation loop has passed over. */
  ghost predicate NoneBefore(bm: seq<bv64>, i: nat, j: nat)
  {
    forall w: nat, k: nat :: w < |bm| && k < 64 && (w < i || (w == i && k < j)) ==> !AnyBit(bm[w], Mask(k))
  }

  lemma {:induction false} NoneBeforeStep(bm: seq<bv64>, i: nat, j: nat, mask: bv64)
    requires i < |bm| && j < 64 && mask == Mask(j)
    requires NoneBefore(bm, i, j) && !AnyBit(bm[i], mask)
    ensures NoneBefore(bm, i, j + 1)
  {
  }

  lemma {:induction false} NoneBeforeWord(bm: seq<bv64>, i: nat)
    requires NoneBefore(bm, i, 64)
    ensures NoneBefore(bm, i + 1, 0)
  {
  }

  /** With nothing set before position j of word i, every marked page is
      at 64 * i + j or above. */
  lemma {:induction false} LowestFree(bm: seq<bv64>, i: nat, j: nat)
    requires j <= 64 && NoneBefore(bm, i, j)
    ensures forall q :: q in Marked(bm) ==> 64 * i + j <= q
  {
    forall q | q in Marked(bm)
      ensures 64 * i + j <= q
    {
      var w, k := WordOf(q), BitOf(q);
      assert q == 64 * w + k && AnyBit(bm[w], Mask(k));
      if q < 64 * i + j {
        assert false;
      }
    }
  }

  /** The pages the counting loop has looked at after j bits of word i:
      every page of the words before, and the top j positions of word i,
      which the loop reaches from the least significant bit up. */
  ghost predicate Scanned(p: nat, i: nat, j: nat)
  {
    p < 64 * i || (WordOf(p) == i && p % 64 >= 64 - j)
  }

  lemma {:induction false} ScannedStep(p: nat, i: nat, j: nat)
    requires j < 64
    ensures Scanned(p, i, j + 1) <==> Scanned(p, i, j) || p == 64 * i + 63 - j
    ensures !Scanned(64 * i + 63 - j, i, j)
  {
  }

  /** The free pages the counting loop has seen after j bits of word i. */
  ghost function ScannedMarked(bm: seq<bv64>, i: nat, j: nat): set<nat>
  {
    set p | p in Marked(bm) && Scanned(p, i, j)
  }

  /** One step of the counting loop: the page at bit position 63 - j of
      word i is new, and is counted exactly when it is free. */
  lemma {:induction false} CountStep(bm: seq<bv64>, i: nat, j: nat, mask: bv64)
    requires i < |bm| && j < 64 && mask == Mask(63 - j)
    ensures 64 * i + 63 - j !in ScannedMarked(bm, i, j)
    ensures ScannedMarked(bm, i, j + 1)
      == ScannedMarked(bm, i, j) + (if AnyBit(bm[i], mask) then {64 * i + 63 - j} else {})
  {
    WordBit(bm, i, 63 - j, mask);
    ScannedStep(64 * i + 63 - j, i, j);
    forall p ensures Scanned(p, i, j + 1) <==> Scanned(p, i, j) || p == 64 * i + 63 - j {
      ScannedStep(p, i, j);
    }
  }

  /** Having scanned all words, the loop has seen every free page. */
  lemma {:induction false} ScannedAll(bm: seq<bv64>)
    ensures ScannedMarked(bm, |bm|, 0) == Marked(bm)
  {
  }

  lemma {:induction false} ScannedWord(p: nat, i: nat)
    ensures Scanned(p, i, 64) == Scanned(p, i + 1, 0)
  {
  }

  lemma {:induction false} ScannedNextWord(bm: seq<bv64>, i: nat)
    ensures ScannedMarked(bm, i, 64) == ScannedMarked(bm, i + 1, 0)
  {
    forall p ensures Scanned(p, i, 64) == Scanned(p, i + 1, 0) {
      ScannedWord(p, i);
    }
  }

  /** The allocator's state: the two bitmaps and the count of free pages. */
  class PhysicalPages {
    /** A set bit marks a free page. */
    const allocBitmap: array<bv64>
    /** A set bit marks a page that exists at all. */
    const existBitmap: array<bv64>
    var freePages: nat

    ghost predicate Bitmaps()
    {
      allocBitmap != existBitmap && allocBitmap.Length == existBitmap.Length
    }

    ghost function FreePages(): set<nat>
      reads allocBitmap
    {
      Marked(allocBitmap[..])
    }

    ghost function ExistingPages(): set<nat>
      reads existBitmap
    {
      Marked(existBitmap[..])
    }

    /** free_pages counts the free pages, and only existing pages are free. */
    ghost predicate Valid()
      reads this, allocBitmap, existBitmap
    {
      Bitmaps() && freePages == |FreePages()| && FreePages() <= ExistingPages()
    }

    /** mem_init_gen_phys_sys: the pages the E820 map calls usable are
        marked free, then the kernel's pages at the base of RAM are taken;
        what is left is both the free and the existing set, and is counted. */
    constructor (records: seq<MemX64.E820Record>, tableLength: nat, words: nat, kernelPages: nat)
      requires MemX64.E820_RECORD_SIZE <= tableLength <= MemX64.E820_RECORD_SIZE * |records|
      requires forall a :: a in UsableAddrs(records, tableLength) ==> a / SIZE_OF_PAGE < 64 * words
      requires kernelPages <= 64 * words && kernelPages < 0x1_0000
      requires UsablePages(records, tableLength) - KernelPages(kernelPages) != {}
      ensures Valid() && fresh(allocBitmap) && fresh(existBitmap) && allocBitmap.Length == words
      ensures FreePages() == UsablePages(records, tableLength) - KernelPages(kernelPages)
      ensures ExistingPages() == FreePages()
      ensures freePages > 0
    {
      allocBitmap := new bv64[words](_ => 0);
      existBitmap := new bv64[words](_ => 0);
      freePages := 0;
      new;
      GenPhysPagesBitmap(records, tableLength);
      ClearKernelPages(kernelPages);
      CopyAllocToExist();
      CountFreePages();
    }

    /** mem_gen_phys_pages_bitmap applied to this allocator: the bitmap is
        zeroed and every page the E820 map offers is marked free. */
    method GenPhysPagesBitmap(records: seq<MemX64.E820Record>, tableLength: nat)
      requires Bitmaps()
      requires MemX64.E820_RECORD_SIZE <= tableLength <= MemX64.E820_RECORD_SIZE * |records|
      requires forall a :: a in UsableAddrs(records, tableLength) ==> a / SIZE_OF_PAGE < 64 * allocBitmap.Length
      modifies allocBitmap
      ensures FreePages() == UsablePages(records, tableLength)
    {
      var marks := MemX64.GenPhysPagesMarks(records, tableLength);
      for k := 0 to allocBitmap.Length
        invariant forall m :: 0 <= m < k ==> allocBitmap[m] == 0
      {
        allocBitmap[k] := 0;
      }
      NoneMarked(allocBitmap[..]);
      for k := 0 to |marks|
        invariant FreePages() == PagesOf(marks[..k])
      {
        assert marks[..k + 1][..k] == marks[..k];
        assert marks[k] in UsableAddrs(records, tableLength);
        SetPageBit(marks[k], true);
      }
      assert marks == marks[..|marks|];
    }

    /** The kernel occupies the first kernelPages pages, which are taken
        without checking that they exist. */
    method ClearKernelPages(kernelPages: nat)
      requires Bitmaps() && kernelPages <= 64 * allocBitmap.Length && kernelPages < 0x1_0000
      modifies allocBitmap
      ensures FreePages() == old(FreePages()) - KernelPages(kernelPages)
    {
      for i := 0 to kernelPages
        invariant FreePages() == old(FreePages()) - KernelPages(i)
      {
        var addr := i * MemX64.MEM_PAGE_SIZE;
        assert addr == SIZE_OF_PAGE * i;
        PageAddress(i);
        ClearPageBit(addr, true);
        assert KernelPages(i + 1) == KernelPages(i) + {i};
      }
    }

    /** The memcpy of the allocation bitmap over the existence bitmap. */
    method CopyAllocToExist()
      requires Bitmaps()
      modifies existBitmap
      ensures existBitmap[..] == allocBitmap[..]
    {
      forall k | 0 <= k < existBitmap.Length {
        existBitmap[k] := allocBitmap[k];
      }
    }

    /** The counting loop of mem_init_gen_phys_sys: every word is scanned from
        its least significant bit up, and each set bit adds one to
        free_pages. */
    method CountFreePages()
      requires Bitmaps() && freePages == 0
      modifies this
      ensures freePages == |FreePages()|
    {
      var words := allocBitmap.Length;
      for i := 0 to words
        invariant freePages == |ScannedMarked(allocBitmap[..], i, 0)|
      {
        var mask: bv64 := 1;
        MaskLast();
        for j := 0 to 64
          invariant j < 64 ==> mask == Mask(63 - j)
          invariant freePages == |ScannedMarked(allocBitmap[..], i, j)|
        {
          assert mask != 0 by {
            MaskNonzero(63 - j);
          }
          CountStep(allocBitmap[..], i, j, mask);
          if AnyBit(allocBitmap[i], mask) {
            freePages := freePages + 1;
          }
          if j < 63 {
            MaskUp(j);
          }
          mask := mask << 1;
        }
        ScannedNextWord(allocBitmap[..], i);
      }
      ScannedAll(allocBitmap[..]);
    }

    /** mem_set_bitmap_page_bit: marks the page at pageAddr free. Unless
        ignoreChecks, the page must exist. */
    method SetPageBit(pageAddr: nat, ignoreChecks: bool)
      requires Bitmaps() && pageAddr / SIZE_OF_PAGE < 64 * allocBitmap.Length
      requires ignoreChecks || pageAddr / SIZE_OF_PAGE in ExistingPages()
      modifies allocBitmap
      ensures allocBitmap[..] == SetPage(old(allocBitmap[..]), pageAddr / SIZE_OF_PAGE)
      ensures FreePages() == old(FreePages()) + {pageAddr / SIZE_OF_PAGE}
    {
      var page := pageAddr / SIZE_OF_PAGE;
      var bitmapIdx := page % 64;
      var bitmapQword := page / 64;
      var mask := Mask(bitmapIdx);
      allocBitmap[bitmapQword] := WithBits(allocBitmap[bitmapQword], mask);
      SetPageEffect(old(allocBitmap[..]), page);
    }

    /** mem_clear_bitmap_page_bit: marks the page at pageAddr in use. Unless
        ignoreChecks, the page must exist. */
    method ClearPageBit(pageAddr: nat, ignoreChecks: bool)
      requires Bitmaps() && pageAddr / SIZE_OF_PAGE < 64 * allocBitmap.Length
      requires ignoreChecks || pageAddr / SIZE_OF_PAGE in ExistingPages()
      modifies allocBitmap
      ensures allocBitmap[..] == ClearPage(old(allocBitmap[..]), pageAddr / SIZE_OF_PAGE)
      ensures FreePages() == old(FreePages()) - {pageAddr / SIZE_OF_PAGE}
    {
      var page := pageAddr / SIZE_OF_PAGE;
      var bitmapIdx := page % 64;
      var bitmapQword := page / 64;
      var mask := Mask(bitmapIdx);
      allocBitmap[bitmapQword] := WithoutBits(allocBitmap[bitmapQword], mask);
      ClearPageEffect(old(allocBitmap[..]), page);
    }

    /** mem_is_bitmap_page_bit_set: whether the page at pageAddr is free. */
    method IsPageBitSet(pageAddr: nat) returns (r: bool)
      requires pageAddr / SIZE_OF_PAGE < 64 * allocBitmap.Length
      ensures r <==> pageAddr / SIZE_OF_PAGE in FreePages()
    {
      var page := pageAddr / SIZE_OF_PAGE;
      var bitmapIdx := page % 64;
      var bitmapQword := page / 64;
      var mask := Mask(bitmapIdx);
      r := AnyBit(allocBitmap[bitmapQword], mask);
      assert r == PageMarked(allocBitmap[..], page);
    }

    /** mem_allocate_physical_pages: hands out the lowest-numbered free page
        and marks it in use. With free_pages above zero a free page is always
        found, so the closing panic cannot be reached. */
    method AllocatePhysicalPages(numPages: nat) returns (addr: nat)
      requires Valid() && numPages == 1 && freePages > 0
      modifies this, allocBitmap
      ensures Valid() && addr % SIZE_OF_PAGE == 0
      ensures addr / SIZE_OF_PAGE in old(FreePages())
      ensures forall q :: q in old(FreePages()) ==> addr / SIZE_OF_PAGE <= q
      ensures FreePages() == old(FreePages()) - {addr / SIZE_OF_PAGE}
      ensures freePages == old(freePages) - 1
    {
      ghost var someFree :| someFree in FreePages();
      for i := 0 to allocBitmap.Length
        invariant allocBitmap[..] == old(allocBitmap[..]) && freePages == old(freePages)
        invariant NoneBefore(allocBitmap[..], i, 0)
      {
        var mask: bv64 := 0x8000_0000_0000_0000;
        for j := 0 to 64
          invariant allocBitmap[..] == old(allocBitmap[..]) && freePages == old(freePages)
          invariant j < 64 ==> mask == Mask(j)
          invariant NoneBefore(allocBitmap[..], i, j)
        {
          assert mask != 0 by { MaskNonzero(j); }
          if AnyBit(allocBitmap[i], mask) {
            LowestFree(allocBitmap[..], i, j);
            addr := TakePage(i, j, mask);
            return;
          }
          NoneBeforeStep(allocBitmap[..], i, j, mask);
          if j < 63 {
            MaskStep(j);
          }
          mask := mask >> 1;
        }
        NoneBeforeWord(allocBitmap[..], i);
      }
      LowestFree(allocBitmap[..], allocBitmap.Length, 0);
      assert false;
    }

    /** The found-branch of mem_allocate_physical_pages: the page under mask
        in word i is free; it must exist, and it is taken out of the free
        set. */
    method TakePage(i: nat, j: nat, mask: bv64) returns (addr: nat)
      requires Valid() && i < allocBitmap.Length && j < 64 && mask == Mask(j)
      requires AnyBit(allocBitmap[i], mask)
      modifies this, allocBitmap
      ensures Valid() && addr % SIZE_OF_PAGE == 0 && addr / SIZE_OF_PAGE == 64 * i + j
      ensures 64 * i + j in old(FreePages())
      ensures FreePages() == old(FreePages()) - {64 * i + j}
      ensures freePages == old(freePages) - 1
    {
      var page := 64 * i + j;
      addr := SIZE_OF_PAGE * page;
      PageAddress(page);
      WordBit(allocBitmap[..], i, j, mask);
      assert AnyBit(existBitmap[i], mask) by {
        WordBit(existBitmap[..], i, j, mask);
      }
      ghost var before := allocBitmap[..];
      RemoveOne(Marked(before), page);
      allocBitmap[i] := WithoutBits(allocBitmap[i], mask);
      ClearedWord(before, allocBitmap[..], i, j, mask);
      freePages := freePages - 1;
    }

    /** mem_deallocate_physical_pages: returns an allocated, existing page to
        the free set. */
    method DeallocatePhysicalPages(start: nat, numPages: nat)
      requires Valid() && numPages == 1 && start % SIZE_OF_PAGE == 0
      requires start / SIZE_OF_PAGE < 64 * allocBitmap.Length
      requires start / SIZE_OF_PAGE in ExistingPages() && start / SIZE_OF_PAGE !in FreePages()
      modifies this, allocBitmap
      ensures Valid()
      ensures FreePages() == old(FreePages()) + {start / SIZE_OF_PAGE}
      ensures freePages == old(freePages) + 1
    {
      var isSet := IsPageBitSet(start);
      assert !isSet;
      SetPageBit(start, false);
      freePages := freePages + 1;
    }
  }
}
