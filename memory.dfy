/** The kernel's slab allocator, kmalloc and kfree of
    kernel/klib/memory/memory.cpp. A request is served from the smallest
    chunk size that holds it; larger requests get whole pages. Each slab is
    one 2MB page: a 40-byte header (list item and allocation count), then a
    bitmap with one bit per chunk (1 = allocated, chunk n at word n / 64
    under the mask 0x8000000000000000 >> (n % 64), the layout of the
    physical page bitmap), then the chunks. Slabs of each size sit in one of
    three lists: free (no chunk allocated), partial or full. */
module SlabAllocator {
  import opened Common
  import opened Arith
  import Bits = PhysicalMemory

  const MEM_PAGE_SIZE: nat := 0x20_0000
  const NUM_SLAB_LISTS: nat := 5
  const CHUNK_SIZES: seq<nat> := [8, 64, 256, 1024, 262144]
  const NUM_CHUNKS_PER_SLAB: seq<nat> := [258041, 32703, 8187, 2047, 7]
  const FIRST_OFFSET_IN_SLAB: seq<nat> := [32824, 4160, 1280, 1024, 262144]
  const FIRST_BITMAP_ENTRY_OFFSET: nat := 40
  const MAX_FREE_SLABS: nat := 5

  const ONES: bv64 := 0xFFFF_FFFF_FFFF_FFFF

  /** The outer test of allocate_chunk_from_slab: the all-ones test mask
      xor the word is nonzero exactly when the word has a clear bit. */
  predicate HasClearBit(w: bv64)
  {
    ONES ^ w != 0
  }

  /** Every bit of w above the single-bit mask is set. */
  ghost predicate SetAbove(w: bv64, mask: bv64)
  {
    w | (mask | (mask - 1)) == ONES
  }

  /** The inner loop's step: the test mask moves one place down. */
  function NextMask(mask: bv64): bv64
  {
    mask >> 1
  }

  // ---------------------------------------------------------------------------
  // Slab layout.
  // ---------------------------------------------------------------------------

  /** allocate_new_slab's bitmap size in bytes: one bit per chunk, rounded up
      (generously) to whole 8-byte words. */
  function BitmapBytes(chunks: nat): nat
  {
    ((chunks / 8 + 1) / 8 + 1) * 8
  }

  function BitmapWords(chunks: nat): nat
  {
    BitmapBytes(chunks) / 8
  }

  /** The bitmap always has a bit for every chunk, and one to spare. */
  lemma {:induction false} BitmapCovers(chunks: nat)
    ensures BitmapBytes(chunks) % 8 == 0
    ensures chunks < 64 * BitmapWords(chunks)
  {
    var q := (chunks / 8 + 1) / 8;
    var r := (chunks / 8 + 1) % 8;
    assert chunks / 8 + 1 == 8 * q + r;
    assert BitmapBytes(chunks) == 8 * (q + 1);
    assert BitmapWords(chunks) == q + 1;
    assert chunks < 8 * (chunks / 8 + 1);
  }

  /** The hand-computed tables agree with each other: for every size class
      the chunks start aligned to their size, after the header and bitmap,
      and fill the rest of the page exactly. */
  lemma SlabLayout(c: nat)
    requires c < NUM_SLAB_LISTS
    ensures FIRST_OFFSET_IN_SLAB[c] % CHUNK_SIZES[c] == 0
    ensures FIRST_BITMAP_ENTRY_OFFSET + BitmapBytes(NUM_CHUNKS_PER_SLAB[c]) <= FIRST_OFFSET_IN_SLAB[c]
    ensures FIRST_OFFSET_IN_SLAB[c] + NUM_CHUNKS_PER_SLAB[c] * CHUNK_SIZES[c] == MEM_PAGE_SIZE
    ensures MEM_PAGE_SIZE % CHUNK_SIZES[c] == 0
  {
  }

  /** The address allocate_chunk_from_slab hands out for chunk idx. */
  function ChunkAddress(base: nat, c: nat, idx: nat): nat
    requires c < NUM_SLAB_LISTS
  {
    base + idx * CHUNK_SIZES[c] + FIRST_OFFSET_IN_SLAB[c]
  }

  /** The chunk kfree computes for an address inside the slab at base. */
  function ChunkOf(base: nat, c: nat, addr: nat): int
    requires c < NUM_SLAB_LISTS
  {
    (addr - base - FIRST_OFFSET_IN_SLAB[c]) / CHUNK_SIZES[c]
  }

  /** The page an address lies in: kfree's slab header address. */
  function PageOf(addr: nat): nat
  {
    addr - addr % MEM_PAGE_SIZE
  }

  /** addr is the address of a chunk of size class c in the slab at base:
      rounding it down to its page gives base, and kfree's chunk number for
      it names a chunk of the slab whose address is addr again. */
  ghost predicate ChunkIn(base: nat, c: nat, addr: nat)
  {
    && c < NUM_SLAB_LISTS && addr % MEM_PAGE_SIZE != 0 && PageOf(addr) == base
    && base + FIRST_OFFSET_IN_SLAB[c] <= addr < base + MEM_PAGE_SIZE
    && 0 <= ChunkOf(base, c, addr) < NUM_CHUNKS_PER_SLAB[c]
    && addr == ChunkAddress(base, c, ChunkOf(base, c, addr))
  }

  /** Every chunk of a slab lies inside the slab's page, past its header and
      bitmap, is aligned to its own size and is never page aligned, so kfree
      tells it apart from a large allocation; kfree recovers the chunk
      number from it. */
  lemma {:induction false} ChunkPlacement(base: nat, c: nat, idx: nat)
    requires c < NUM_SLAB_LISTS && base % MEM_PAGE_SIZE == 0 && idx < NUM_CHUNKS_PER_SLAB[c]
    ensures var a := ChunkAddress(base, c, idx);
      && base + FIRST_BITMAP_ENTRY_OFFSET + BitmapBytes(NUM_CHUNKS_PER_SLAB[c]) <= a
      && a + CHUNK_SIZES[c] <= base + MEM_PAGE_SIZE
      && a % CHUNK_SIZES[c] == 0
      && a % MEM_PAGE_SIZE != 0 && a - a % MEM_PAGE_SIZE == base
      && ChunkOf(base, c, a) == idx
  {
    SlabLayout(c);
    var size, first := CHUNK_SIZES[c], FIRST_OFFSET_IN_SLAB[c];
    var a := ChunkAddress(base, c, idx);
    MulMono(size, idx, NUM_CHUNKS_PER_SLAB[c] - 1);
    var off := idx * size + first;
    assert 0 < off < MEM_PAGE_SIZE;
    DivModUnique(a, MEM_PAGE_SIZE, base / MEM_PAGE_SIZE, off);
    DivModUnique(a - base - first, size, idx, 0);
    ModTrans(base, MEM_PAGE_SIZE, size);
    DivModUnique(a, size, base / size + idx + first / size, 0);
  }

  // ---------------------------------------------------------------------------
  // Bitmap words: searching for a clear bit, and the masks of kfree.
  // ---------------------------------------------------------------------------

  /** A word of all ones has its 64 chunks allocated. */
  lemma {:induction false} FullWord(bm: seq<bv64>, i: nat)
    requires i < |bm| && bm[i] == ONES && forall q: nat :: q < 64 * i ==> q in Bits.Marked(bm)
    ensures forall q: nat :: q < 64 * (i + 1) ==> q in Bits.Marked(bm)
  {
    forall q: nat | 64 * i <= q < 64 * (i + 1)
      ensures q in Bits.Marked(bm)
    {
      WordOnesMarked(bm, i, q - 64 * i);
    }
  }

  /** A word that is all ones cannot be the one holding a free chunk. */
  lemma {:induction false} FullWordBeforeFree(bm: seq<bv64>, i: nat, free: nat)
    requires i <= free / 64 < |bm| && bm[i] == ONES && free !in Bits.Marked(bm)
    ensures i < free / 64
  {
    var k := free % 64;
    assert free == 64 * (free / 64) + k;
    if i == free / 64 {
      WordOnesMarked(bm, i, k);
      assert false;
    }
  }

  lemma {:induction false} WordOnesMarked(bm: seq<bv64>, i: nat, k: nat)
    requires i < |bm| && bm[i] == ONES && k < 64
    ensures 64 * i + k in Bits.Marked(bm)
  {
    Bits.MaskNonzero(k);
    Bits.WordBit(bm, i, k, Bits.Mask(k));
  }

  /** The outer test: test_mask ^ word is zero only for a word of all ones. */
  lemma XorOnes(w: bv64)
    requires ONES ^ w == 0
    ensures w == ONES
  {
  }

  /** 0x8000000000000000 >> k has exactly one bit set. */
  lemma {:induction false} MaskSingle(k: nat)
    requires k < 64
    ensures Bits.Mask(k) & (Bits.Mask(k) - 1) == 0
  {
    if k > 0 {
      MaskSingle(k - 1);
      Bits.MaskNonzero(k - 1);
      Bits.MaskLast();
      Bits.MasksDisjoint(k - 1, 63);
      HalveSingle(Bits.Mask(k - 1));
    }
  }

  lemma HalveSingle(m: bv64)
    requires m != 0 && m & (m - 1) == 0 && m & 1 == 0
    ensures (m >> 1) & ((m >> 1) - 1) == 0
  {
  }

  /** Bits at and below a single-bit mask: the invariant of the inner search
      loop is that, with those masked in, the word is all ones. */
  lemma LowerOnesStep(w: bv64, m: bv64)
    requires m != 0 && m & (m - 1) == 0 && m & 1 == 0
    requires w | (m | (m - 1)) == ONES && w & m != 0
    ensures w | ((m >> 1) | ((m >> 1) - 1)) == ONES
  {
  }

  /** At the last position the loop could only keep going if the word were
      all ones, which the outer test excluded. */
  lemma NotLastMask(w: bv64, m: bv64)
    requires ONES ^ w != 0 && w | (m | (m - 1)) == ONES && w & m != 0
    ensures m != 1
  {
  }

  /** (uint64_t)1 << b, one place at a time. */
  function LowMask(b: nat): bv64
    requires b < 64
  {
    if b == 0 then 1 else LowMask(b - 1) << 1
  }

  /** 1 << (63 - k) is the mask 0x8000000000000000 >> k. */
  lemma {:induction false} LowMaskIsMask(b: nat)
    requires b < 64
    ensures LowMask(b) == Bits.Mask(63 - b)
  {
    if b == 0 {
      Bits.MaskLast();
    } else {
      LowMaskIsMask(b - 1);
      Bits.MaskShiftLeft(63 - (b - 1));
    }
  }

  /** Toggling a set single bit clears it. */
  lemma {:induction false} XorClears(w: bv64, k: nat, m: bv64)
    requires k < 64 && m == Bits.Mask(k) && Bits.AnyBit(w, m)
    ensures w ^ m == Bits.WithoutBits(w, m)
  {
    MaskSingle(k);
    SingleBitSet(w, m);
    XorSet(w, m);
  }

  lemma SingleBitSet(w: bv64, m: bv64)
    requires m & (m - 1) == 0 && w & m != 0
    ensures w & m == m
  {
  }

  lemma XorSet(w: bv64, m: bv64)
    requires w & m == m
    ensures w ^ m == Bits.WithoutBits(w, m)
  {
  }

  // ---------------------------------------------------------------------------
  // Counting chunks.
  // ---------------------------------------------------------------------------

  /** The chunk numbers below n. */
  ghost function Below(n: nat): set<nat>
  {
    if n == 0 then {} else Below(n - 1) + {n - 1}
  }

  lemma {:induction false} BelowSize(n: nat)
    ensures |Below(n)| == n
    ensures forall q: nat :: q in Below(n) <==> q < n
  {
    if n > 0 {
      BelowSize(n - 1);
    }
  }

  lemma SubsetSize(a: set<nat>, b: set<nat>)
    requires a <= b
    ensures |a| <= |b|
  {
    assert b == a + (b - a);
  }

  /** With fewer than n chunks allocated, all below n, one below n is free. */
  lemma {:induction false} FreeChunkExists(s: set<nat>, n: nat) returns (q: nat)
    requires (forall p | p in s :: p < n) && |s| < n
    ensures q < n && q !in s
  {
    if forall p: nat :: p < n ==> p in s {
      BelowSize(n);
      SubsetSize(Below(n), s);
      assert false;
    }
    q :| q < n && q !in s;
  }

  /** A set of chunks all below n has n members exactly when it holds all of
      them. */
  lemma {:induction false} FullExactly(s: set<nat>, n: nat)
    requires forall p | p in s :: p < n
    ensures |s| <= n
    ensures |s| == n <==> forall p: nat :: p < n ==> p in s
  {
    BelowSize(n);
    SubsetSize(s, Below(n));
    if |s| == n && exists p: nat :: p < n && p !in s {
      var p: nat :| p < n && p !in s;
      SubsetSize(s + {p}, Below(n));
    }
    if forall p: nat :: p < n ==> p in s {
      SubsetSize(Below(n), s);
    }
  }

  // ---------------------------------------------------------------------------
  // A slab.
  // ---------------------------------------------------------------------------

  /** The list a slab's list item is in (list_entry.list_obj). */
  datatype ListId = NoList | FreeList(c: nat) | PartialList(c: nat) | FullList(c: nat)

  /** A slab: its page address, its allocation bitmap and the header's
      allocation_count. Which list the header's list item is in is kept
      with the lists themselves (Kmalloc.Allocator). */
  class Slab {
    const base: nat
    const bitmap: array<bv64>
    var allocationCount: nat

    /** The allocated chunks: the set bits of the bitmap. */
    ghost function Chunks(): set<nat>
      reads bitmap
    {
      Bits.Marked(bitmap[..])
    }

    /** A slab of size class c: page aligned, a bitmap of the size
        allocate_new_slab gives it, no bit set past the last chunk, and the
        count matching the set bits. */
    ghost predicate Valid(c: nat)
      reads this`allocationCount, bitmap
    {
      && c < NUM_SLAB_LISTS
      && base % MEM_PAGE_SIZE == 0
      && bitmap.Length == BitmapWords(NUM_CHUNKS_PER_SLAB[c])
      && (forall q | q in Chunks() :: q < NUM_CHUNKS_PER_SLAB[c])
      && allocationCount == |Chunks()|
    }

    /** How full a slab in list id must be: no chunk allocated in a free
        list, some but not all in a partial list, all in a full list. A slab
        outside every list is unconstrained. */
    ghost predicate Fits(id: ListId)
      reads this`allocationCount, bitmap
    {
      match id
      case NoList => true
      case FreeList(c) => Valid(c) && allocationCount == 0
      case PartialList(c) => Valid(c) && 0 < allocationCount < NUM_CHUNKS_PER_SLAB[c]
      case FullList(c) => Valid(c) && allocationCount == NUM_CHUNKS_PER_SLAB[c]
    }

    /** allocate_new_slab: a header with a zero count, outside every list,
        and a zeroed bitmap, at the page the caller obtained. */
    constructor (page: nat, c: nat)
      requires c < NUM_SLAB_LISTS && page % MEM_PAGE_SIZE == 0
      ensures Valid(c) && base == page && fresh(bitmap)
      ensures Chunks() == {} && allocationCount == 0
    {
      base := page;
      bitmap := new bv64[BitmapWords(NUM_CHUNKS_PER_SLAB[c])];
      allocationCount := 0;
      new;
      for k := 0 to bitmap.Length
        invariant allocationCount == 0
        invariant forall m :: 0 <= m < k ==> bitmap[m] == 0
      {
        bitmap[k] := 0;
      }
      forall q: nat | q < 64 * bitmap.Length
        ensures !Bits.PageMarked(bitmap[..], q)
      {
        assert bitmap[q / 64] == 0;
      }
      Bits.NoneMarked(bitmap[..]);
    }

    /** allocate_chunk_from_slab: the lowest free chunk is marked allocated
        and its address returned. The slab must not be full (see
        ScanAsWritten for what happens when it is). */
    method AllocateChunk(c: nat) returns (addr: nat)
      requires Valid(c) && allocationCount < NUM_CHUNKS_PER_SLAB[c]
      modifies this`allocationCount, bitmap
      ensures Valid(c) && ChunkIn(base, c, addr)
      ensures var idx := ChunkOf(base, c, addr);
        && 0 <= idx < NUM_CHUNKS_PER_SLAB[c] && addr == ChunkAddress(base, c, idx)
        && idx !in old(Chunks()) && (forall q: nat :: q < idx ==> q in old(Chunks()))
        && Chunks() == old(Chunks()) + {idx}
      ensures allocationCount == old(allocationCount) + 1
    {
      ghost var free := FreeChunkExists(Chunks(), NUM_CHUNKS_PER_SLAB[c]);
      BitmapCovers(NUM_CHUNKS_PER_SLAB[c]);
      var word, firstFreeIdx := SkipFullWords(c, free);
      var j, mask;
      j, mask, firstFreeIdx := FirstClearBit(word, firstFreeIdx);
      LowestBelowFree(Chunks(), firstFreeIdx, free);
      ghost var taken := Chunks();
      SetBit(word, j, mask, firstFreeIdx);
      addr := ChunkAddress(base, c, firstFreeIdx);
      ChunkTaken(taken, Chunks(), base, c, firstFreeIdx, addr);
      allocationCount := allocationCount + 1;
    }

    /** Sets the bit of chunk 64 * word + j. */
    method SetBit(word: nat, j: nat, mask: bv64, ghost idx: nat)
      requires word < bitmap.Length && j < 64 && mask == Bits.Mask(j) && idx == 64 * word + j
      modifies bitmap
      ensures Chunks() == old(Chunks()) + {idx}
    {
      ghost var before := bitmap[..];
      bitmap[word] := Bits.WithBits(bitmap[word], mask);
      assert bitmap[..] == before[word := Bits.WithBits(before[word], mask)];
      SetChunk(before, bitmap[..], word, j, mask);
    }

    /** Toggles off the set bit of chunk 64 * word + j. */
    method ClearBit(word: nat, j: nat, mask: bv64)
      requires word < bitmap.Length && j < 64 && mask == Bits.Mask(j)
      requires 64 * word + j in Chunks()
      modifies bitmap
      ensures Chunks() == old(Chunks()) - {64 * word + j}
    {
      ghost var before := bitmap[..];
      Bits.WordBit(before, word, j, mask);
      XorClears(before[word], j, mask);
      bitmap[word] := bitmap[word] ^ mask;
      assert bitmap[..] == before[word := Bits.WithoutBits(before[word], mask)];
      Bits.ClearedWord(before, bitmap[..], word, j, mask);
    }

    /** The outer loop of allocate_chunk_from_slab: words whose bits are all
        set are skipped, 64 chunks at a time. It stops at or before the word
        holding the free chunk free. */
    method SkipFullWords(ghost c: nat, ghost free: nat) returns (word: nat, firstFreeIdx: nat)
      requires Valid(c) && free < NUM_CHUNKS_PER_SLAB[c] && free !in Chunks()
      ensures word <= free / 64 < bitmap.Length && firstFreeIdx == 64 * word
      ensures HasClearBit(bitmap[word])
      ensures forall q: nat :: q < firstFreeIdx ==> q in Chunks()
    {
      BitmapCovers(NUM_CHUNKS_PER_SLAB[c]);
      word := 0;
      firstFreeIdx := 0;
      while !HasClearBit(bitmap[word])
        invariant word <= free / 64 < bitmap.Length && firstFreeIdx == 64 * word
        invariant free !in Bits.Marked(bitmap[..])
        invariant forall q: nat :: q < firstFreeIdx ==> q in Chunks()
        decreases free / 64 - word
      {
        XorOnes(bitmap[word]);
        assert Chunks() == Bits.Marked(bitmap[..]);
        FullWord(bitmap[..], word);
        FullWordBeforeFree(bitmap[..], word, free);
        word := word + 1;
        firstFreeIdx := firstFreeIdx + 64;
        assert firstFreeIdx <= NUM_CHUNKS_PER_SLAB[c];
      }
    }

    /** The inner loop of allocate_chunk_from_slab: in a word with a clear
        bit, the mask moves down from the top bit past the set bits; each
        step counts one chunk. The source's check that the mask never
        reaches 1 with the bit still set holds. */
    method FirstClearBit(word: nat, firstFreeIdx: nat) returns (j: nat, mask: bv64, idx: nat)
      requires word < bitmap.Length && HasClearBit(bitmap[word]) && firstFreeIdx == 64 * word
      requires forall q: nat :: q < firstFreeIdx ==> q in Chunks()
      ensures j < 64 && mask == Bits.Mask(j) && idx == firstFreeIdx + j
      ensures idx !in Chunks() && forall q: nat :: q < idx ==> q in Chunks()
    {
      mask := 0x8000_0000_0000_0000;
      j := 0;
      idx := firstFreeIdx;
      assert Chunks() == Bits.Marked(bitmap[..]);
      while Bits.AnyBit(bitmap[word], mask)
        invariant j < 64 && mask == Bits.Mask(j) && idx == firstFreeIdx + j
        invariant forall q: nat :: q < idx ==> q in Bits.Marked(bitmap[..])
        invariant SetAbove(bitmap[word], mask)
        decreases 64 - j
      {
        PastSetBit(bitmap[..], word, j, mask, idx);
        idx := idx + 1;
        MaskAdvance(bitmap[word], j, mask);
        mask := NextMask(mask);
        j := j + 1;
      }
      Bits.WordBit(bitmap[..], word, j, mask);
    }

    /** The bitmap half of kfree: the chunk addr falls in must be allocated;
        its bit is toggled off and the count drops by one. */
    method FreeChunk(c: nat, addr: nat)
      requires Valid(c) && base + FIRST_OFFSET_IN_SLAB[c] <= addr < base + MEM_PAGE_SIZE
      requires ChunkOf(base, c, addr) < NUM_CHUNKS_PER_SLAB[c]
      requires ChunkOf(base, c, addr) in Chunks()
      modifies this`allocationCount, bitmap
      ensures Valid(c)
      ensures Chunks() == old(Chunks()) - {ChunkOf(base, c, addr)}
      ensures allocationCount == old(allocationCount) - 1
    {
      var chunkOffset := addr - base;
      chunkOffset := chunkOffset - FIRST_OFFSET_IN_SLAB[c];
      chunkOffset := chunkOffset / CHUNK_SIZES[c];
      var bitmapUlong := chunkOffset / 64;
      var bitmapBit := 63 - chunkOffset % 64;
      var bitmapMask := LowMask(bitmapBit);
      LowMaskIsMask(bitmapBit);
      BitmapCovers(NUM_CHUNKS_PER_SLAB[c]);
      ghost var held := Chunks();
      ClearBit(bitmapUlong, chunkOffset % 64, bitmapMask);
      Bits.RemoveOne(held, chunkOffset);
      allocationCount := allocationCount - 1;
    }

    /** slab_is_full: every chunk is allocated. */
    method IsFull(c: nat) returns (r: bool)
      requires Valid(c)
      ensures r <==> forall q: nat :: q < NUM_CHUNKS_PER_SLAB[c] ==> q in Chunks()
      ensures r <==> allocationCount == NUM_CHUNKS_PER_SLAB[c]
    {
      var maxChunks := NUM_CHUNKS_PER_SLAB[c];
      FullExactly(Chunks(), maxChunks);
      assert allocationCount <= maxChunks;
      r := allocationCount == maxChunks;
    }

    /** slab_is_empty: no chunk is allocated. */
    method IsEmpty() returns (r: bool)
      requires exists c :: Valid(c)
      ensures r <==> Chunks() == {}
    {
      r := allocationCount == 0;
    }
  }

  /** allocate_chunk_from_slab's search as written, without the caller's
      promise that the slab has a free chunk: the number of the first clear
      bit at or after chunk q. The outer loop skips all-ones words and the
      inner loop walks the bits of the first other word, so together they
      visit the bits in this order. */
  ghost function ScanAsWritten(bm: seq<bv64>, q: nat): (r: nat)
    ensures q <= r && (r < 64 * |bm| ==> r !in Bits.Marked(bm))
    ensures forall p: nat :: q <= p < r && p < 64 * |bm| ==> p in Bits.Marked(bm)
    decreases 64 * |bm| - q
  {
    if q >= 64 * |bm| then q
    else if Bits.PageMarked(bm, q) then ScanAsWritten(bm, q + 1)
    else q
  }

  /** On a full slab the search as written stops at the first bit past the
      last chunk, which is clear: the count it returns equals
      NUM_CHUNKS_PER_SLAB, so the check first_free_idx <= NUM_CHUNKS_PER_SLAB
      lets it through, and the address handed out is the start of the next
      page, outside the slab. */
  lemma FullSlabScanAsWritten(bm: seq<bv64>, c: nat, base: nat)
    requires c < NUM_SLAB_LISTS && |bm| == BitmapWords(NUM_CHUNKS_PER_SLAB[c])
    requires forall p: nat :: p in Bits.Marked(bm) <==> p < NUM_CHUNKS_PER_SLAB[c]
    ensures ScanAsWritten(bm, 0) == NUM_CHUNKS_PER_SLAB[c]
    ensures ScanAsWritten(bm, 0) <= NUM_CHUNKS_PER_SLAB[c]
    ensures ChunkAddress(base, c, ScanAsWritten(bm, 0)) == base + MEM_PAGE_SIZE
  {
    BitmapCovers(NUM_CHUNKS_PER_SLAB[c]);
    var n := NUM_CHUNKS_PER_SLAB[c];
    var r := ScanAsWritten(bm, 0);
    assert r <= n by {
      assert n !in Bits.Marked(bm);
    }
    assert n <= r;
    SlabLayout(c);
  }

  /** The chunk the search settles on, seen through the address handed out. */
  lemma ChunkTaken(before: set<nat>, after: set<nat>, base: nat, c: nat, idx: nat, addr: nat)
    requires c < NUM_SLAB_LISTS
    requires base % MEM_PAGE_SIZE == 0
    requires idx < NUM_CHUNKS_PER_SLAB[c]
    requires addr == ChunkAddress(base, c, idx)
    requires idx !in before
    requires forall q: nat :: q < idx ==> q in before
    requires after == before + {idx}
    ensures ChunkIn(base, c, addr)
    ensures var i := ChunkOf(base, c, addr);
      && 0 <= i < NUM_CHUNKS_PER_SLAB[c] && addr == ChunkAddress(base, c, i)
      && i !in before && (forall q: nat :: q < i ==> q in before)
      && after == before + {i}
  {
    ChunkPlacement(base, c, idx);
  }

  /** Setting the bit of chunk 64 * word + j adds that chunk. */
  lemma {:induction false} SetChunk(before: seq<bv64>, after: seq<bv64>, word: nat, j: nat, mask: bv64)
    requires word < |before| && j < 64 && mask == Bits.Mask(j)
    requires after == before[word := Bits.WithBits(before[word], mask)]
    ensures Bits.Marked(after) == Bits.Marked(before) + {64 * word + j}
  {
    SetWordBit(before, word, j, mask);
    Bits.SetPageEffect(before, 64 * word + j);
  }

  lemma {:induction false} SetWordBit(bm: seq<bv64>, i: nat, j: nat, mask: bv64)
    requires i < |bm| && j < 64 && mask == Bits.Mask(j)
    ensures Bits.SetPage(bm, 64 * i + j) == bm[i := Bits.WithBits(bm[i], mask)]
  {
    Bits.PageOfBit(i, j);
  }

  /** The loop passes a set bit: one more chunk is known to be allocated. */
  lemma {:induction false} PastSetBit(bm: seq<bv64>, word: nat, j: nat, mask: bv64, idx: nat)
    requires word < |bm| && j < 64 && mask == Bits.Mask(j) && idx == 64 * word + j
    requires Bits.AnyBit(bm[word], mask)
    requires forall q: nat :: q < idx ==> q in Bits.Marked(bm)
    ensures forall q: nat :: q < idx + 1 ==> q in Bits.Marked(bm)
  {
    Bits.WordBit(bm, word, j, mask);
  }

  /** In a word with a clear bit, the mask can move one place down past a
      set bit: it never falls off the end, and the bits above it stay set. */
  lemma {:induction false} MaskAdvance(w: bv64, j: nat, mask: bv64)
    requires j < 64 && mask == Bits.Mask(j) && HasClearBit(w)
    requires SetAbove(w, mask) && Bits.AnyBit(w, mask)
    ensures j < 63 && NextMask(mask) == Bits.Mask(j + 1)
    ensures SetAbove(w, NextMask(mask))
  {
    MaskSingle(j);
    NotLastMask(w, mask);
    Bits.MaskLast();
    Bits.MaskNonzero(j);
    if j == 63 {
      assert false;
    }
    Bits.MasksDisjoint(j, 63);
    LowerOnesStep(w, mask);
    Bits.MaskStep(j);
  }

  /** The lowest free chunk is below any other free chunk. */
  lemma {:induction false} LowestBelowFree(s: set<nat>, idx: nat, free: nat)
    requires idx !in s && (forall q: nat :: q < idx ==> q in s) && free !in s
    ensures idx <= free
  {
  }
}
