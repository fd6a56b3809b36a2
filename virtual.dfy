/** The virtual address space manager of kernel/mem/virtual.cpp: a buddy
    allocator over 2MB pages. Each address space (the kernel's, or one per
    process) is a list of ranges lying end to end; a range has a power-of-two
    number of pages, starts on a multiple of its own size, and is either
    allocated or free. Allocation picks the smallest free range that is big
    enough and halves it until it has the size wanted; deallocation frees a
    range and joins it with its free buddy, repeatedly. */
module VirtualMemory {
  import opened Common
  import opened Arith

  /** MEM_PAGE_SIZE: the 2MB page. */
  const PAGE: nat := 0x20_0000

  /** The kernel's space: 2048 pages from 0xFFFFFFFF00000000, the last of
      which (0xFFFFFFFFFFE00000) is reserved at start-up. */
  const KERNEL_BASE: int := 0xFFFF_FFFF_0000_0000
  const KERNEL_SPACE_PAGES: nat := 2048
  const KERNEL_LAST_PAGE: int := 0xFFFF_FFFF_FFE0_0000

  /** A process's space: 0x2000000 pages from address 0. */
  const PROCESS_SPACE_PAGES: nat := 0x200_0000

  /** vmm_range_data: the start address, the size in pages and whether the
      range is handed out. */
  datatype Range = Range(start: int, pages: nat, isAllocated: bool)

  /** The first address after the range. */
  function End(r: Range): int
  {
    r.start + r.pages * PAGE
  }

  /** Halving a block: both halves start on a multiple of the half size. */
  lemma HalvesAligned(a: int, h: nat)
    requires h > 0 && a % (2 * h * PAGE) == 0
    ensures a % (h * PAGE) == 0 && (a + h * PAGE) % (h * PAGE) == 0
  {
    var q := a / (2 * h * PAGE);
    assert a == (2 * h * PAGE) * q;
    assert a == (h * PAGE) * (2 * q);
    MulMod(h * PAGE, 2 * q);
    assert a + h * PAGE == (h * PAGE) * (2 * q + 1);
    MulMod(h * PAGE, 2 * q + 1);
  }

  /** The block before a second half is the first half: it starts on a
      multiple of the doubled size. */
  lemma LowerBuddyAligned(a: int, s: nat)
    requires s > 0 && a % (s * PAGE) == 0 && a % (s * 2 * PAGE) != 0
    ensures (a - s * PAGE) % (s * 2 * PAGE) == 0
  {
    var m := s * PAGE;
    var q := a / m;
    assert a == m * q;
    if q % 2 == 0 {
      assert a == (s * 2 * PAGE) * (q / 2);
      MulMod(s * 2 * PAGE, q / 2);
    }
    assert q == 2 * (q / 2) + 1;
    assert a - m == (s * 2 * PAGE) * (q / 2);
    MulMod(s * 2 * PAGE, q / 2);
  }

  // ---------------------------------------------------------------------
  // Powers of two.
  // ---------------------------------------------------------------------

  ghost predicate IsPow2(n: nat)
  {
    n == 1 || (n >= 2 && n % 2 == 0 && IsPow2(n / 2))
  }

  lemma Pow2Double(n: nat)
    requires IsPow2(n)
    ensures IsPow2(2 * n)
  {
    assert (2 * n) / 2 == n;
  }

  lemma {:induction false} Pow2IsPow2(k: nat)
    ensures IsPow2(Pow2(k))
  {
    if k > 0 {
      Pow2IsPow2(k - 1);
      Pow2Double(Pow2(k - 1));
    }
  }

  /** The sizes of the kernel's and a process's space are powers of two. */
  lemma SpacePow2()
    ensures IsPow2(KERNEL_SPACE_PAGES) && IsPow2(PROCESS_SPACE_PAGES)
  {
    Pow2Value(11, KERNEL_SPACE_PAGES);
    Pow2Value(12, 4096);
    Pow2Value(13, 8192);
    assert PROCESS_SPACE_PAGES == 4096 * 8192;
    Pow2Product(12, 13);
  }

  lemma {:induction false} Pow2Value(k: nat, v: nat)
    requires v == Pow2(k)
    ensures IsPow2(v)
  {
    Pow2IsPow2(k);
  }

  lemma {:induction false} Pow2Product(a: nat, b: nat)
    ensures Pow2(a) * Pow2(b) == Pow2(a + b)
    decreases b
  {
    if b > 0 {
      var x, y, z := Pow2(a), Pow2(b - 1), Pow2(a + b - 1);
      Pow2Product(a, b - 1);
      assert Pow2(b) == 2 * y && Pow2(a + b) == 2 * z;
      DoubleFactor(x, y);
    }
  }

  lemma DoubleFactor(x: int, y: int)
    ensures x * (2 * y) == 2 * (x * y)
  {
  }

  /** A smaller power of two is at most half of a larger one. */
  lemma {:induction false} Pow2Order(a: nat, b: nat)
    requires IsPow2(a) && IsPow2(b) && a < b
    ensures a <= b / 2
    decreases b
  {
    if a > b / 2 {
      assert a >= 2 && b >= 2;
      assert a / 2 < b / 2;
      Pow2Order(a / 2, b / 2);
    }
  }

  /** A smaller power of two divides a larger one. */
  lemma {:induction false} Pow2Divides(a: nat, b: nat)
    requires IsPow2(a) && IsPow2(b) && a <= b
    ensures b % a == 0
    decreases b
  {
    if a < b {
      Pow2Order(a, b);
      Pow2Divides(a, b / 2);
      var h := b / 2;
      var q := h / a;
      assert h == a * q + h % a;
      assert h == a * q;
      assert b == 2 * h;
      assert b == a * (2 * q);
      MulMod(a, 2 * q);
    } else {
      MulMod(a, 1);
    }
  }

  /** round_to_power_two (not part of this model): the smallest power of two
      at least n. */
  function RoundUpPow2(n: nat): (r: nat)
    requires n >= 1
    ensures IsPow2(r) && n <= r
    ensures r == 1 || r / 2 < n
  {
    if n <= 1 then 1
    else
      var half := RoundUpPow2((n + 1) / 2);
      Pow2Double(half);
      2 * half
  }

  /** Rounding leaves a power of two alone. */
  lemma RoundUpExact(n: nat)
    requires n >= 1 && IsPow2(n)
    ensures RoundUpPow2(n) == n
  {
    var r := RoundUpPow2(n);
    if r > n {
      Pow2Order(n, r);
    }
  }

  // ---------------------------------------------------------------------
  // Ranges lying end to end.
  // ---------------------------------------------------------------------

  /** A range as the buddy allocator keeps it: a power-of-two size, and a
      start on a multiple of that size. */
  ghost predicate WellFormed(r: Range)
  {
    IsPow2(r.pages) && r.start % (r.pages * PAGE) == 0
  }

  /** rs covers the addresses from lo up to hi, each range starting where
      the one before it ends. */
  ghost predicate Chain(rs: seq<Range>, lo: int, hi: int)
    decreases |rs|
  {
    if |rs| == 0 then lo == hi
    else WellFormed(rs[0]) && rs[0].start == lo && Chain(rs[1..], End(rs[0]), hi)
  }

  /** Where a chain starting at lo ends. */
  ghost function Reach(rs: seq<Range>, lo: int): int
  {
    if |rs| == 0 then lo else End(rs[|rs| - 1])
  }

  lemma {:induction false} ChainAppend(a: seq<Range>, b: seq<Range>, lo: int, mid: int, hi: int)
    requires Chain(a, lo, mid) && Chain(b, mid, hi)
    ensures Chain(a + b, lo, hi)
    decreases |a|
  {
    if |a| == 0 {
      assert a + b == b;
    } else {
      assert (a + b)[1..] == a[1..] + b;
      ChainAppend(a[1..], b, End(a[0]), mid, hi);
    }
  }

  lemma {:induction false} ChainCut(a: seq<Range>, b: seq<Range>, lo: int, hi: int)
    requires Chain(a + b, lo, hi)
    ensures Chain(a, lo, Reach(a, lo)) && Chain(b, Reach(a, lo), hi)
    decreases |a|
  {
    if |a| == 0 {
      assert a + b == b;
    } else {
      assert (a + b)[1..] == a[1..] + b;
      ChainCut(a[1..], b, End(a[0]), hi);
    }
  }

  /** Every range of a chain is well formed and lies within it. */
  lemma {:induction false} ChainBounds(rs: seq<Range>, lo: int, hi: int, k: nat)
    requires Chain(rs, lo, hi) && k < |rs|
    ensures WellFormed(rs[k]) && lo <= rs[k].start && End(rs[k]) <= hi
    decreases |rs|
  {
    ChainInside(rs[1..], End(rs[0]), hi);
    if k > 0 {
      ChainBounds(rs[1..], End(rs[0]), hi, k - 1);
    }
  }

  lemma {:induction false} ChainInside(rs: seq<Range>, lo: int, hi: int)
    requires Chain(rs, lo, hi)
    ensures lo + |rs| * PAGE <= hi
    decreases |rs|
  {
    if |rs| > 0 {
      ChainInside(rs[1..], End(rs[0]), hi);
    }
  }

  /** Ranges of a chain follow one another without overlapping. */
  lemma {:induction false} ChainOrder(rs: seq<Range>, lo: int, hi: int, j: nat, k: nat)
    requires Chain(rs, lo, hi) && j < k < |rs|
    ensures End(rs[j]) <= rs[k].start
    decreases |rs|
  {
    if j == 0 {
      ChainBounds(rs[1..], End(rs[0]), hi, k - 1);
    } else {
      ChainOrder(rs[1..], End(rs[0]), hi, j - 1, k - 1);
    }
  }

  /** Distinct ranges of a chain start at distinct addresses. */
  lemma StartsDistinct(rs: seq<Range>, lo: int, hi: int, j: nat, k: nat)
    requires Chain(rs, lo, hi) && j < |rs| && k < |rs| && j != k
    ensures rs[j].start != rs[k].start
  {
    ChainBounds(rs, lo, hi, j);
    ChainBounds(rs, lo, hi, k);
    if j < k {
      ChainOrder(rs, lo, hi, j, k);
    } else {
      ChainOrder(rs, lo, hi, k, j);
    }
  }

  /** Every address of the chain's span lies in one of its ranges. */
  lemma {:induction false} ChainCovers(rs: seq<Range>, lo: int, hi: int, a: int)
    requires Chain(rs, lo, hi) && lo <= a < hi
    ensures exists k :: 0 <= k < |rs| && rs[k].start <= a < End(rs[k])
    decreases |rs|
  {
    if a >= End(rs[0]) {
      ChainCovers(rs[1..], End(rs[0]), hi, a);
      var k :| 0 <= k < |rs[1..]| && rs[1..][k].start <= a < End(rs[1..][k]);
      assert rs[k + 1] == rs[1..][k];
    }
  }

  /** A chain keeps its shape when only allocation flags change. */
  lemma {:induction false} ChainFlags(rs: seq<Range>, rs': seq<Range>, lo: int, hi: int)
    requires Chain(rs, lo, hi) && |rs'| == |rs|
    requires forall k | 0 <= k < |rs| :: rs'[k].start == rs[k].start && rs'[k].pages == rs[k].pages
    ensures Chain(rs', lo, hi)
    decreases |rs|
  {
    if |rs| > 0 {
      assert rs'[0].start == rs[0].start && rs'[0].pages == rs[0].pages;
      ChainFlags(rs[1..], rs'[1..], End(rs[0]), hi);
    }
  }

  /** Swapping a stretch of a chain for another covering the same span. */
  lemma ChainReplace(pre: seq<Range>, mid: seq<Range>, mid': seq<Range>, post: seq<Range>, lo: int, hi: int)
    requires Chain(pre + mid + post, lo, hi)
    requires Chain(mid, Reach(pre, lo), Reach(mid, Reach(pre, lo))) ==>
               Chain(mid', Reach(pre, lo), Reach(mid, Reach(pre, lo)))
    ensures Chain(pre + mid' + post, lo, hi)
  {
    var a := Reach(pre, lo);
    assert pre + mid + post == pre + (mid + post);
    ChainCut(pre, mid + post, lo, hi);
    ChainCut(mid, post, a, hi);
    ChainAppend(mid', post, a, Reach(mid, a), hi);
    ChainAppend(pre, mid' + post, lo, a, hi);
    assert pre + (mid' + post) == pre + mid' + post;
  }

  /** Every page-aligned address of a chain's span lies in one of its ranges
      by the test of mem_vmm_allocate_specific_range. */
  lemma AlignedAddressCovered(rs: seq<Range>, lo: int, hi: int, a: int)
    requires Chain(rs, lo, hi) && lo <= a < hi && a % PAGE == 0
    ensures exists k :: 0 <= k < |rs| && Covers(rs[k], a)
  {
    ChainCovers(rs, lo, hi, a);
    var k :| 0 <= k < |rs| && rs[k].start <= a < End(rs[k]);
    ChainBounds(rs, lo, hi, k);
    PageAligned(rs[k]);
    NextMultiple(a, End(rs[k]), PAGE);
  }

  /** A well-formed range starts and ends on page boundaries. */
  lemma PageAligned(r: Range)
    requires WellFormed(r)
    ensures r.start % PAGE == 0 && End(r) % PAGE == 0
  {
    ModFactor(r.start, PAGE, r.pages);
    var q := r.start / PAGE;
    assert End(r) == PAGE * (q + r.pages);
    MulMod(PAGE, q + r.pages);
  }

  /** At most one range of a chain passes the containment test. */
  lemma CoverUnique(rs: seq<Range>, lo: int, hi: int, j: nat, k: nat, a: int)
    requires Chain(rs, lo, hi) && j < |rs| && k < |rs|
    requires Covers(rs[j], a) && Covers(rs[k], a)
    ensures j == k
  {
    if j < k {
      ChainOrder(rs, lo, hi, j, k);
    } else if k < j {
      ChainOrder(rs, lo, hi, k, j);
    }
  }

  // ---------------------------------------------------------------------
  // What is handed out.
  // ---------------------------------------------------------------------

  /** The ranges handed out. */
  ghost function Allocated(rs: seq<Range>): set<Range>
  {
    set r | r in rs && r.isAllocated
  }

  /** Free ranges can be rearranged without changing what is handed out. */
  lemma AllocatedReplaceFree(pre: seq<Range>, mid: seq<Range>, mid': seq<Range>, post: seq<Range>)
    requires forall k | 0 <= k < |mid| :: !mid[k].isAllocated
    requires forall k | 0 <= k < |mid'| :: !mid'[k].isAllocated
    ensures Allocated(pre + mid' + post) == Allocated(pre + mid + post)
  {
    forall r | r in pre + mid' + post && r.isAllocated
      ensures r in pre + mid + post
    {
      assert r !in mid';
    }
    forall r | r in pre + mid + post && r.isAllocated
      ensures r in pre + mid' + post
    {
      assert r !in mid;
    }
  }

  /** Marking a free range allocated adds it to what is handed out. */
  lemma AllocatedMark(rs: seq<Range>, i: nat, r: Range)
    requires i < |rs| && !rs[i].isAllocated && r.isAllocated
    ensures Allocated(rs[i := r]) == Allocated(rs) + {r}
  {
    var rs' := rs[i := r];
    forall x | x in rs && x.isAllocated
      ensures x in rs'
    {
      var k :| 0 <= k < |rs| && rs[k] == x;
      assert rs'[k] == x;
    }
    forall x | x in rs' && x.isAllocated && x != r
      ensures x in rs
    {
      var k :| 0 <= k < |rs'| && rs'[k] == x;
      assert rs[k] == x;
    }
    assert rs'[i] == r;
  }

  /** Marking an allocated range free takes it out of what is handed out,
      when no other range is equal to it. */
  lemma AllocatedUnmark(rs: seq<Range>, i: nat, r: Range)
    requires i < |rs| && rs[i].isAllocated && !r.isAllocated
    requires forall k | 0 <= k < |rs| && k != i :: rs[k] != rs[i]
    ensures Allocated(rs[i := r]) == Allocated(rs) - {rs[i]}
  {
    var rs' := rs[i := r];
    forall x | x in rs && x.isAllocated && x != rs[i]
      ensures x in rs'
    {
      var k :| 0 <= k < |rs| && rs[k] == x;
      assert rs'[k] == x;
    }
    forall x | x in rs' && x.isAllocated
      ensures x in rs && x != rs[i]
    {
      var k :| 0 <= k < |rs'| && rs'[k] == x;
      assert rs[k] == x;
    }
  }

  /** A free range of at least n pages. */
  predicate Fits(r: Range, n: nat)
  {
    !r.isAllocated && r.pages >= n
  }

  /** rs[j] is a smallest free range of at least n pages. */
  ghost predicate SmallestFit(rs: seq<Range>, j: nat, n: nat)
  {
    j < |rs| && Fits(rs[j], n) &&
    forall k | 0 <= k < |rs| && Fits(rs[k], n) :: rs[j].pages <= rs[k].pages
  }

  /** The containment test of mem_vmm_allocate_specific_range: the range
      starts at or below addr and its last byte lies above addr. */
  predicate Covers(r: Range, addr: int)
  {
    r.start <= addr && r.start + r.pages * PAGE - 1 > addr
  }

  // ---------------------------------------------------------------------
  // Splitting.
  // ---------------------------------------------------------------------

  /** The halves of a range: the first keeps its state, the second is free. */
  function LowerHalf(r: Range): Range
  {
    Range(r.start, r.pages / 2, r.isAllocated)
  }

  function UpperHalf(r: Range): Range
  {
    Range(r.start + (r.pages / 2) * PAGE, r.pages / 2, false)
  }

  /** mem_vmm_split_range on a range r: halve it, and while the new second
      half is bigger than reqd, split the first half again. */
  function SplitPieces(r: Range, reqd: nat): (s: seq<Range>)
    ensures |s| >= 2 && s[|s| - 1] == UpperHalf(r)
    decreases r.pages
  {
    if r.pages / 2 > reqd then SplitPieces(LowerHalf(r), reqd) + [UpperHalf(r)]
    else [LowerHalf(r), UpperHalf(r)]
  }

  /** The halves of a well-formed range are well formed and cover it. */
  lemma HalvesSound(r: Range)
    requires WellFormed(r) && r.pages >= 2
    ensures WellFormed(LowerHalf(r)) && WellFormed(UpperHalf(r))
    ensures Chain([LowerHalf(r), UpperHalf(r)], r.start, End(r))
  {
    var h := r.pages / 2;
    assert r.pages == 2 * h;
    HalvesAligned(r.start, h);
    assert [LowerHalf(r), UpperHalf(r)][1..] == [UpperHalf(r)];
    assert [UpperHalf(r)][1..] == [];
  }

  /** Splitting a well-formed range down to a smaller power of two: the
      pieces cover it exactly, the first has reqd pages and the range's
      state, and every other piece is free. */
  lemma {:induction false} SplitSound(r: Range, reqd: nat)
    requires WellFormed(r) && IsPow2(reqd) && reqd < r.pages
    ensures Chain(SplitPieces(r, reqd), r.start, End(r))
    ensures SplitPieces(r, reqd)[0] == Range(r.start, reqd, r.isAllocated)
    ensures forall k | 1 <= k < |SplitPieces(r, reqd)| :: !SplitPieces(r, reqd)[k].isAllocated
    decreases r.pages
  {
    Pow2Order(reqd, r.pages);
    HalvesSound(r);
    var first := LowerHalf(r);
    var second := UpperHalf(r);
    if r.pages / 2 > reqd {
      SplitSound(first, reqd);
      var s := SplitPieces(first, reqd);
      assert Chain([second], End(first), End(r)) by {
        assert [second][1..] == [];
      }
      ChainAppend(s, [second], r.start, End(first), End(r));
      assert (s + [second])[0] == s[0];
      forall k | 1 <= k < |s + [second]|
        ensures !(s + [second])[k].isAllocated
      {
        if k < |s| {
          assert (s + [second])[k] == s[k];
        }
      }
    }
  }

  // ---------------------------------------------------------------------
  // Merging.
  // ---------------------------------------------------------------------

  /** The partner mem_vmm_resolve_merges considers for rs[i]: the next range
      when rs[i] starts on a multiple of twice its size (a first half), the
      previous range otherwise, and none past either end of the list. */
  function Partner(rs: seq<Range>, i: nat): (p: Option<nat>)
    requires i < |rs| && rs[i].pages > 0
    ensures p.Some? ==> p.value < |rs|
  {
    if rs[i].start % (rs[i].pages * 2 * PAGE) == 0 then
      (if i + 1 < |rs| then Some(i + 1) else None)
    else if i > 0 then Some(i - 1) else None
  }

  /** rs[i] has a partner it joins with: free and of the same size. */
  predicate Mergeable(rs: seq<Range>, i: nat)
    requires i < |rs| && rs[i].pages > 0
  {
    var p := Partner(rs, i);
    p.Some? && !rs[p.value].isAllocated && rs[p.value].pages == rs[i].pages
  }

  /** The lower of rs[i] and its partner, the one that survives a merge. */
  function Survivor(rs: seq<Range>, i: nat): (lo: nat)
    requires i < |rs| && rs[i].pages > 0 && Partner(rs, i).Some?
    ensures lo + 1 < |rs| && (lo == i || lo + 1 == i)
  {
    if Partner(rs, i).value < i then i - 1 else i
  }

  /** One merge: the survivor doubles and the other range is removed. */
  function MergeAt(rs: seq<Range>, i: nat): seq<Range>
    requires i < |rs| && rs[i].pages > 0 && Partner(rs, i).Some?
  {
    var lo := Survivor(rs, i);
    rs[..lo] + [Range(rs[lo].start, rs[lo].pages * 2, rs[lo].isAllocated)] + rs[lo + 2..]
  }

  /** Neighbours in a chain touch. */
  lemma {:induction false} ChainNeighbours(rs: seq<Range>, lo: int, hi: int, l: nat)
    requires Chain(rs, lo, hi) && l + 1 < |rs|
    ensures rs[l + 1].start == End(rs[l]) && WellFormed(rs[l]) && WellFormed(rs[l + 1])
    decreases |rs|
  {
    if l > 0 {
      ChainNeighbours(rs[1..], End(rs[0]), hi, l - 1);
    } else {
      assert rs[1..][0] == rs[1];
    }
  }

  /** The partner a free range is merged with is its buddy: the two lie
      side by side, are the same size, and together form a well-formed
      range of twice that size. */
  lemma MergeIsBuddy(rs: seq<Range>, lo: int, hi: int, i: nat)
    requires Chain(rs, lo, hi) && i < |rs| && rs[i].pages > 0 && Mergeable(rs, i)
    ensures var l := Survivor(rs, i);
      rs[l + 1].start == End(rs[l]) && rs[l].pages == rs[l + 1].pages &&
      WellFormed(Range(rs[l].start, rs[l].pages * 2, false))
  {
    var l := Survivor(rs, i);
    ChainNeighbours(rs, lo, hi, l);
    var s := rs[i].pages;
    Pow2Double(s);
    if l != i {
      assert rs[i].start % (s * 2 * PAGE) != 0;
      LowerBuddyAligned(rs[i].start, s);
    }
  }

  /** A merge keeps the chain and what is handed out, and the joined range
      covers rs[i]. */
  lemma MergeSound(rs: seq<Range>, lo: int, hi: int, i: nat)
    requires Chain(rs, lo, hi) && i < |rs| && rs[i].pages > 0
    requires !rs[i].isAllocated && Mergeable(rs, i)
    ensures Chain(MergeAt(rs, i), lo, hi)
    ensures Allocated(MergeAt(rs, i)) == Allocated(rs)
    ensures |MergeAt(rs, i)| == |rs| - 1
    ensures var m := MergeAt(rs, i)[Survivor(rs, i)];
      !m.isAllocated && m.start <= rs[i].start && End(rs[i]) <= End(m)
  {
    MergeIsBuddy(rs, lo, hi, i);
    var l := Survivor(rs, i);
    var a := rs[l];
    var b := rs[l + 1];
    var pre := rs[..l];
    var post := rs[l + 2..];
    var m := Range(a.start, a.pages * 2, a.isAllocated);
    assert rs == pre + [a, b] + post;
    MergePieces(pre, a, b, m, post, lo, hi);
    AllocatedReplaceFree(pre, [a, b], [m], post);
    assert MergeAt(rs, i) == pre + [m] + post;
    assert MergeAt(rs, i)[l] == m;
  }

  lemma MergePieces(pre: seq<Range>, a: Range, b: Range, m: Range, post: seq<Range>, lo: int, hi: int)
    requires Chain(pre + [a, b] + post, lo, hi)
    requires b.start == End(a) && m.start == a.start && End(m) == End(b) && WellFormed(m)
    ensures Chain(pre + [m] + post, lo, hi)
  {
    var c := Reach(pre, lo);
    if Chain([a, b], c, Reach([a, b], c)) {
      assert a.start == c;
      assert Chain([m], c, End(b)) by {
        assert [m][1..] == [];
      }
    }
    ChainReplace(pre, [a, b], [m], post, lo, hi);
  }

  // ---------------------------------------------------------------------
  // An address space.
  // ---------------------------------------------------------------------

  /** vmm_process_data: one address space and its range list. The lock and
      the static pools the kernel's first list items come from are not part
      of this model. */
  class VirtualSpace {
    /** vmm_range_data_list, in address order. */
    var ranges: seq<Range>
    /** The first address and the size in pages of the space. */
    const base: int
    const total: nat

    /** The ranges lie end to end over the whole space, each well formed. */
    ghost predicate Valid()
      reads this
    {
      total >= 1 && Chain(ranges, base, base + total * PAGE)
    }

    /** mem_vmm_init_proc_data: a process's space starts as one free range. */
    constructor ProcessSpace()
      ensures Valid() && base == 0 && total == PROCESS_SPACE_PAGES
      ensures ranges == [Range(0, PROCESS_SPACE_PAGES, false)]
    {
      base := 0;
      total := PROCESS_SPACE_PAGES;
      ranges := [Range(0, PROCESS_SPACE_PAGES, false)];
      new;
      SpacePow2();
      assert ranges[1..] == [];
    }

    /** mem_vmm_initialize: the kernel's space, with the kernel image's
        kernelPages pages at its start and the last page reserved. */
    constructor KernelSpace(kernelPages: nat)
      requires IsPow2(kernelPages) && kernelPages <= KERNEL_SPACE_PAGES / 2
      ensures Valid() && base == KERNEL_BASE && total == KERNEL_SPACE_PAGES
      ensures Allocated(ranges) == {Range(KERNEL_BASE, kernelPages, true), Range(KERNEL_LAST_PAGE, 1, true)}
    {
      base := KERNEL_BASE;
      total := KERNEL_SPACE_PAGES;
      ranges := [Range(KERNEL_BASE, KERNEL_SPACE_PAGES, false)];
      new;
      SpacePow2();
      assert ranges[1..] == [];
      assert Allocated(ranges) == {};
      KernelImageAligned(kernelPages);
      assert Covers(ranges[0], KERNEL_BASE) && Fits(ranges[0], kernelPages);
      AllocateSpecificRange(KERNEL_BASE, kernelPages);
      LastPageFree(ranges, kernelPages);
      AllocateSpecificRange(KERNEL_LAST_PAGE, 1);
    }

    /** mem_vmm_get_suitable_range: the smallest free range of at least n
        pages; of several that small, the first. */
    method GetSuitableRange(n: nat) returns (i: nat)
      requires n != 0
      requires exists j :: 0 <= j < |ranges| && Fits(ranges[j], n)
      ensures SmallestFit(ranges, i, n)
      ensures forall k | 0 <= k < i && Fits(ranges[k], n) :: ranges[i].pages < ranges[k].pages
    {
      var selected: Option<nat> := None;
      var k := 0;
      while k < |ranges|
        invariant k <= |ranges|
        invariant selected.None? ==> forall j | 0 <= j < k :: !Fits(ranges[j], n)
        invariant selected.Some? ==> selected.value < k && Fits(ranges[selected.value], n)
        invariant selected.Some? ==>
          forall j | 0 <= j < k && Fits(ranges[j], n) :: ranges[selected.value].pages <= ranges[j].pages
        invariant selected.Some? ==>
          forall j | 0 <= j < selected.value && Fits(ranges[j], n) :: ranges[selected.value].pages < ranges[j].pages
      {
        var r := ranges[k];
        if !r.isAllocated && r.pages >= n && (selected.None? || ranges[selected.value].pages > r.pages) {
          selected := Some(k);
        }
        k := k + 1;
      }
      i := selected.value;
    }

    /** mem_vmm_split_range: range i is halved until its first part has reqd
        pages; the other halves follow it, free. */
    method SplitRange(i: nat, reqd: nat)
      requires Valid() && i < |ranges| && IsPow2(reqd) && reqd < ranges[i].pages
      modifies this
      ensures Valid()
      ensures ranges == old(ranges[..i]) + SplitPieces(old(ranges[i]), reqd) + old(ranges[i + 1..])
      ensures ranges[i] == Range(old(ranges[i].start), reqd, old(ranges[i].isAllocated))
      decreases ranges[i].pages
    {
      ghost var pre := ranges[..i];
      ghost var post := ranges[i + 1..];
      var r := ranges[i];
      SplitStep(ranges, base, base + total * PAGE, i, reqd);
      ranges := ranges[..i] + [LowerHalf(r), UpperHalf(r)] + ranges[i + 1..];
      assert ranges[i] == LowerHalf(r) && ranges[i + 1..] == [UpperHalf(r)] + post;
      if r.pages / 2 > reqd {
        SplitRange(i, reqd);
        assert pre + SplitPieces(LowerHalf(r), reqd) + ([UpperHalf(r)] + post)
            == pre + (SplitPieces(LowerHalf(r), reqd) + [UpperHalf(r)]) + post;
      }
    }

    /** mem_vmm_resolve_merges: a free range is joined with its partner when
        that is free and of the same size, and the joined range is treated
        the same way. The range it ends with (j) is free, covers the start
        range and has no partner left to join. */
    method ResolveMerges(i: nat) returns (ghost j: nat)
      requires Valid() && i < |ranges| && !ranges[i].isAllocated
      modifies this
      ensures Valid() && Allocated(ranges) == old(Allocated(ranges))
      ensures j < |ranges| && ranges[j].pages > 0 && !ranges[j].isAllocated && !Mergeable(ranges, j)
      ensures ranges[j].start <= old(ranges[i].start) && old(End(ranges[i])) <= End(ranges[j])
      decreases |ranges|
    {
      ChainBounds(ranges, base, base + total * PAGE, i);
      var partner := Partner(ranges, i);
      if partner.Some? {
        var p := partner.value;
        if !ranges[p].isAllocated && ranges[p].pages == ranges[i].pages {
          MergeSound(ranges, base, base + total * PAGE, i);
          var lo := Survivor(ranges, i);
          ranges := MergeAt(ranges, i);
          j := ResolveMerges(lo);
          return;
        }
      }
      j := i;
    }

    /** The range list walk of mem_deallocate_virtual_range and
        mem_get_virtual_allocation_size: the first range starting at addr. */
    method FindStart(addr: int) returns (found: Option<nat>)
      ensures found.Some? ==> found.value < |ranges| && ranges[found.value].start == addr
      ensures found.None? ==> forall k | 0 <= k < |ranges| :: ranges[k].start != addr
    {
      var k := 0;
      while k < |ranges|
        invariant k <= |ranges|
        invariant forall j | 0 <= j < k :: ranges[j].start != addr
      {
        if ranges[k].start == addr {
          return Some(k);
        }
        k := k + 1;
      }
      return None;
    }

    /** The range list walk of mem_vmm_allocate_specific_range: the first
        range passing its containment test. */
    method FindCovering(addr: int) returns (i: nat)
      requires exists k :: 0 <= k < |ranges| && Covers(ranges[k], addr)
      ensures i < |ranges| && Covers(ranges[i], addr)
      ensures forall k | 0 <= k < i :: !Covers(ranges[k], addr)
    {
      i := 0;
      while !Covers(ranges[i], addr)
        invariant i < |ranges|
        invariant forall k | 0 <= k < i :: !Covers(ranges[k], addr)
        decreases |ranges| - i
      {
        i := i + 1;
      }
    }

    /** mem_allocate_virtual_range: n is rounded up to a power of two R; the
        smallest free range of at least R pages is split down to R pages
        and marked allocated, and its start is returned. The range handed
        out was free: it is the start of a smallest fitting range. */
    method AllocateVirtualRange(n: nat) returns (addr: int)
      requires Valid() && n >= 1
      requires exists j :: 0 <= j < |ranges| && Fits(ranges[j], RoundUpPow2(n))
      modifies this
      ensures Valid()
      ensures Allocated(ranges) == old(Allocated(ranges)) + {Range(addr, RoundUpPow2(n), true)}
      ensures Range(addr, RoundUpPow2(n), true) !in old(Allocated(ranges))
      ensures exists j: nat :: SmallestFit(old(ranges), j, RoundUpPow2(n)) && old(ranges)[j].start == addr
    {
      var pages := RoundUpPow2(n);
      var i := GetSuitableRange(pages);
      ghost var before := ranges;
      ChainBounds(ranges, base, base + total * PAGE, i);
      NotYetAllocated(ranges, base, base + total * PAGE, i, pages);
      var r := ranges[i];
      if r.pages != pages {
        Pow2Order(pages, r.pages);
        SplitSound(r, pages);
        SplitRange(i, pages);
        AllocatedReplaceFree(before[..i], [r], SplitPieces(r, pages), before[i + 1..]);
        assert before == before[..i] + [r] + before[i + 1..];
      }
      assert ranges[i] == Range(r.start, pages, false);
      MarkAllocated(i);
      addr := r.start;
    }

    /** Marks free range i allocated. */
    method MarkAllocated(i: nat)
      requires Valid() && i < |ranges| && !ranges[i].isAllocated
      modifies this
      ensures Valid()
      ensures ranges == old(ranges[i := Range(ranges[i].start, ranges[i].pages, true)])
      ensures Allocated(ranges) == old(Allocated(ranges)) + {Range(ranges[i].start, ranges[i].pages, true)}
    {
      var r := ranges[i];
      AllocatedMark(ranges, i, Range(r.start, r.pages, true));
      ChainFlags(ranges, ranges[i := Range(r.start, r.pages, true)], base, base + total * PAGE);
      ranges := ranges[i := Range(r.start, r.pages, true)];
    }

    /** mem_vmm_allocate_specific_range: the n pages at addr are marked
        allocated, halving the range holding them until it has exactly n
        pages. The range holding addr must be free (see
        SpecificAllocationAsWritten for the unchecked case). */
    method AllocateSpecificRange(addr: int, n: nat)
      requires Valid() && IsPow2(n) && addr % (n * PAGE) == 0
      requires exists k :: 0 <= k < |ranges| && Covers(ranges[k], addr) && Fits(ranges[k], n)
      modifies this
      ensures Valid()
      ensures Allocated(ranges) == old(Allocated(ranges)) + {Range(addr, n, true)}
      decreases total - |ranges|
    {
      ChainInside(ranges, base, base + total * PAGE);
      var i := FindCovering(addr);
      ghost var k :| 0 <= k < |ranges| && Covers(ranges[k], addr) && Fits(ranges[k], n);
      CoverUnique(ranges, base, base + total * PAGE, i, k, addr);
      ChainBounds(ranges, base, base + total * PAGE, i);
      var r := ranges[i];
      if r.pages == n {
        SameMultiple(addr, r.start, n * PAGE);
        MarkAllocated(i);
      } else {
        ghost var before := ranges;
        Pow2Order(n, r.pages);
        SplitRange(i, r.pages / 2);
        SplitHalfCovers(before, base, base + total * PAGE, i, addr, n);
        AllocatedSplitFree(before, i);
        AllocateSpecificRange(addr, n);
      }
    }

    /** mem_deallocate_virtual_range: the allocated range starting at addr,
        of n pages rounded up to a power of two, is freed and merged with
        its free buddies. */
    method DeallocateVirtualRange(addr: int, n: nat)
      requires Valid() && n >= 1
      requires Range(addr, RoundUpPow2(n), true) in ranges
      modifies this
      ensures Valid()
      ensures Allocated(ranges) == old(Allocated(ranges)) - {Range(addr, RoundUpPow2(n), true)}
    {
      var pages := RoundUpPow2(n);
      var found := FindStart(addr);
      ghost var k :| 0 <= k < |ranges| && ranges[k] == Range(addr, pages, true);
      var i := found.value;
      if i != k {
        StartsDistinct(ranges, base, base + total * PAGE, i, k);
      }
      forall j | 0 <= j < |ranges| && j != i
        ensures ranges[j] != ranges[i]
      {
        StartsDistinct(ranges, base, base + total * PAGE, i, j);
      }
      AllocatedUnmark(ranges, i, Range(addr, pages, false));
      ChainFlags(ranges, ranges[i := Range(addr, pages, false)], base, base + total * PAGE);
      ranges := ranges[i := Range(addr, pages, false)];
      ghost var j := ResolveMerges(i);
    }

    /** mem_get_virtual_allocation_size: the size of the allocation starting
        at addr, or 0 when none starts there. */
    method GetVirtualAllocationSize(addr: int) returns (size: nat)
      requires Valid()
      ensures size > 0 ==> Range(addr, size, true) in ranges
      ensures size == 0 ==> forall r | r in ranges && r.start == addr :: !r.isAllocated
    {
      var found := FindStart(addr);
      size := 0;
      if found.Some? && ranges[found.value].isAllocated {
        ChainBounds(ranges, base, base + total * PAGE, found.value);
        size := ranges[found.value].pages;
      }
      if size == 0 {
        forall r | r in ranges && r.start == addr
          ensures !r.isAllocated
        {
          var k :| 0 <= k < |ranges| && ranges[k] == r;
          if found.Some? && k != found.value {
            StartsDistinct(ranges, base, base + total * PAGE, k, found.value);
          }
        }
      }
    }

    /** The walk in mem_vmm_free_proc_data looking for the first allocated
        range. */
    method FirstAllocated() returns (found: Option<nat>)
      ensures found.Some? ==> found.value < |ranges| && ranges[found.value].isAllocated
      ensures found.None? ==> Allocated(ranges) == {}
    {
      var k := 0;
      while k < |ranges|
        invariant k <= |ranges|
        invariant forall j | 0 <= j < k :: !ranges[j].isAllocated
      {
        if ranges[k].isAllocated {
          return Some(k);
        }
        k := k + 1;
      }
      return None;
    }

    /** mem_vmm_free_proc_data: every allocated range is released until a
        single range is left, which must be the whole space, free. The
        result says whether one of the source's assertions fails: the walk
        finds only free ranges but more than one of them (free buddies the
        merging left apart), or the one range left is allocated. */
    method FreeProcData() returns (failed: bool)
      requires Valid()
      modifies this
      ensures Valid()
      ensures Allocated(ranges) <= old(Allocated(ranges))
      ensures !failed <==> ranges == [Range(base, total, false)]
      ensures failed ==>
        || (|ranges| > 1 && Allocated(ranges) == {})
        || ranges == [Range(base, total, true)]
      ensures !failed ==> Allocated(ranges) == {}
    {
      while |ranges| > 1
        invariant Valid()
        invariant Allocated(ranges) <= old(Allocated(ranges))
        decreases |Allocated(ranges)|
      {
        var found := FirstAllocated();
        if found.None? {
          return true;
        }
        var r := ranges[found.value];
        ChainBounds(ranges, base, base + total * PAGE, found.value);
        RoundUpExact(r.pages);
        assert r in Allocated(ranges);
        DeallocateVirtualRange(r.start, r.pages);
      }
      assert ranges[1..] == [];
      assert Chain(ranges[1..], End(ranges[0]), base + total * PAGE);
      assert ranges[0].pages * PAGE == total * PAGE;
      if ranges[0].isAllocated {
        assert ranges == [Range(base, total, true)];
        return true;
      }
      assert ranges == [Range(base, total, false)];
      assert Allocated(ranges) == {};
      return false;
    }
  }

  /** The first splitting step keeps the chain. */
  lemma SplitStep(rs: seq<Range>, lo: int, hi: int, i: nat, reqd: nat)
    requires Chain(rs, lo, hi) && i < |rs| && IsPow2(reqd) && reqd < rs[i].pages
    ensures Chain(rs[..i] + [LowerHalf(rs[i]), UpperHalf(rs[i])] + rs[i + 1..], lo, hi)
    ensures IsPow2(rs[i].pages / 2) && reqd <= rs[i].pages / 2
  {
    var r := rs[i];
    ChainBounds(rs, lo, hi, i);
    Pow2Order(reqd, r.pages);
    HalvesSound(r);
    var pre := rs[..i];
    var c := Reach(pre, lo);
    if Chain([r], c, Reach([r], c)) {
      assert r.start == c;
    }
    assert rs == pre + [r] + rs[i + 1..];
    ChainReplace(pre, [r], [LowerHalf(r), UpperHalf(r)], rs[i + 1..], lo, hi);
  }

  /** Halving a free range leaves the set of allocations as it was. */
  lemma AllocatedSplitFree(before: seq<Range>, i: nat)
    requires i < |before| && !before[i].isAllocated
    ensures Allocated(before[..i] + SplitPieces(before[i], before[i].pages / 2) + before[i + 1..]) == Allocated(before)
  {
    var r := before[i];
    assert SplitPieces(r, r.pages / 2) == [LowerHalf(r), UpperHalf(r)];
    AllocatedReplaceFree(before[..i], [r], [LowerHalf(r), UpperHalf(r)], before[i + 1..]);
    assert before == before[..i] + [r] + before[i + 1..];
  }

  /** After range i (free, holding addr) is halved, one of the halves holds
      addr and has room for n pages. */
  lemma SplitHalfCovers(before: seq<Range>, lo: int, hi: int, i: nat, addr: int, n: nat)
    requires i < |before| && WellFormed(before[i]) && before[i].pages > n >= 1 && IsPow2(n)
    requires Fits(before[i], n) && Covers(before[i], addr) && addr % (n * PAGE) == 0
    requires n <= before[i].pages / 2
    ensures var now := before[..i] + SplitPieces(before[i], before[i].pages / 2) + before[i + 1..];
      exists k :: 0 <= k < |now| && Covers(now[k], addr) && Fits(now[k], n)
  {
    var r := before[i];
    var now := before[..i] + SplitPieces(r, r.pages / 2) + before[i + 1..];
    assert SplitPieces(r, r.pages / 2) == [LowerHalf(r), UpperHalf(r)];
    assert now[i] == LowerHalf(r) && now[i + 1] == UpperHalf(r);
    HalvesSound(r);
    if !Covers(LowerHalf(r), addr) {
      ModFactor(addr, PAGE, n);
      PageAligned(UpperHalf(r));
      if addr < UpperHalf(r).start {
        NextMultiple(addr, UpperHalf(r).start, PAGE);
      }
      assert Covers(now[i + 1], addr);
    }
  }

  /** The smallest fitting range is not one handed out already. */
  lemma NotYetAllocated(rs: seq<Range>, lo: int, hi: int, i: nat, n: nat)
    requires Chain(rs, lo, hi) && i < |rs| && Fits(rs[i], n)
    ensures Range(rs[i].start, n, true) !in Allocated(rs)
  {
    if Range(rs[i].start, n, true) in Allocated(rs) {
      var k :| 0 <= k < |rs| && rs[k] == Range(rs[i].start, n, true);
      StartsDistinct(rs, lo, hi, i, k);
    }
  }

  /** The kernel image's start is a multiple of its own size. */
  lemma KernelImageAligned(kernelPages: nat)
    requires IsPow2(kernelPages) && kernelPages <= KERNEL_SPACE_PAGES / 2
    ensures KERNEL_BASE % (kernelPages * PAGE) == 0
  {
    SpacePow2();
    Pow2Divides(kernelPages, KERNEL_SPACE_PAGES);
    ScaleMod(KERNEL_SPACE_PAGES, kernelPages, PAGE);
    assert KERNEL_BASE % (KERNEL_SPACE_PAGES * PAGE) == 0;
    ModTrans(KERNEL_BASE, KERNEL_SPACE_PAGES * PAGE, kernelPages * PAGE);
  }

  /** Once only the kernel image is allocated, the last page of the kernel's
      space lies in a free range. */
  lemma LastPageFree(rs: seq<Range>, kernelPages: nat)
    requires Chain(rs, KERNEL_BASE, KERNEL_BASE + KERNEL_SPACE_PAGES * PAGE)
    requires kernelPages <= KERNEL_SPACE_PAGES / 2
    requires Allocated(rs) == {} + {Range(KERNEL_BASE, kernelPages, true)}
    ensures exists k :: 0 <= k < |rs| && Covers(rs[k], KERNEL_LAST_PAGE) && Fits(rs[k], 1)
  {
    AlignedAddressCovered(rs, KERNEL_BASE, KERNEL_BASE + KERNEL_SPACE_PAGES * PAGE, KERNEL_LAST_PAGE);
    var k :| 0 <= k < |rs| && Covers(rs[k], KERNEL_LAST_PAGE);
    ChainBounds(rs, KERNEL_BASE, KERNEL_BASE + KERNEL_SPACE_PAGES * PAGE, k);
    var x := rs[k];
    assert x in rs;
    assert x.isAllocated ==> x in Allocated(rs);
    assert Fits(rs[k], 1);
  }

  // ---------------------------------------------------------------------
  // mem_vmm_allocate_specific_range on a range already handed out.
  // ---------------------------------------------------------------------

  /** What mem_vmm_allocate_specific_range does to the range r holding addr,
      as written: a range of fewer than n pages fails the size assertion
      (None); a range of exactly n pages is marked allocated after asserting
      it is free (None: the assertion fails); a bigger range is split (the
      first half keeping r's state, the second half free) and the half
      holding addr is treated the same way. Whether r itself was free is
      never asked, so the only allocated pieces besides the n pages asked
      for are the first halves of an already allocated r. */
  function SpecificAllocationAsWritten(r: Range, addr: int, n: nat): (out: Option<seq<Range>>)
    ensures r.pages < n ==> out.None?
    ensures r.pages == n ==> (out.Some? <==> !r.isAllocated)
    ensures out.Some? ==> |out.value| >= 1 && out.value[0].start == r.start
    ensures out.Some? ==> forall j :: 0 <= j < |out.value| ==>
      r.start <= out.value[j].start && End(out.value[j]) <= End(r)
    ensures out.Some? ==> forall j :: 0 <= j < |out.value| && out.value[j].isAllocated ==>
      out.value[j].pages == n || r.isAllocated
    decreases r.pages
  {
    if r.pages < n then None
    else if r.pages == n then
      (if r.isAllocated then None else Some([Range(r.start, r.pages, true)]))
    else if Covers(LowerHalf(r), addr) then
      var sub := SpecificAllocationAsWritten(LowerHalf(r), addr, n);
      if sub.None? then None
      else
        var s := sub.value;
        assert forall j :: 0 <= j < |s| ==> (s + [UpperHalf(r)])[j] == s[j];
        Some(s + [UpperHalf(r)])
    else
      var sub := SpecificAllocationAsWritten(UpperHalf(r), addr, n);
      if sub.None? then None
      else
        var s := sub.value;
        assert forall j :: 0 <= j < |s| ==> ([LowerHalf(r)] + s)[j + 1] == s[j];
        Some([LowerHalf(r)] + s)
  }

  /** When no assertion fails, the n pages handed out are among the pieces,
      allocated. */
  lemma {:induction false} SpecificAllocationHandsOut(r: Range, addr: int, n: nat)
    ensures var out := SpecificAllocationAsWritten(r, addr, n);
      out.Some? ==> exists j :: 0 <= j < |out.value| && out.value[j] == Range(out.value[j].start, n, true)
    decreases r.pages
  {
    var out := SpecificAllocationAsWritten(r, addr, n);
    if out.None? || r.pages <= n {
      if out.Some? {
        assert out.value[0] == Range(r.start, n, true);
      }
    } else {
      var lower := Covers(LowerHalf(r), addr);
      var half := if lower then LowerHalf(r) else UpperHalf(r);
      SpecificAllocationHandsOut(half, addr, n);
      var s := SpecificAllocationAsWritten(half, addr, n).value;
      var k :| 0 <= k < |s| && s[k] == Range(s[k].start, n, true);
      if lower {
        assert out.value == s + [UpperHalf(r)] && out.value[k] == s[k];
      } else {
        assert out.value == [LowerHalf(r)] + s && out.value[k + 1] == s[k];
      }
    }
  }

  /** When r is a well-formed range holding the page-aligned addr and no
      assertion fails, the n allocated pages handed out are the ones holding
      addr. */
  lemma {:induction false} SpecificAllocationHoldsAddr(r: Range, addr: int, n: nat)
    requires n >= 1 && WellFormed(r) && Covers(r, addr) && addr % PAGE == 0
    ensures var out := SpecificAllocationAsWritten(r, addr, n);
      out.Some? ==> exists j :: 0 <= j < |out.value| && out.value[j] == Range(out.value[j].start, n, true) && Covers(out.value[j], addr)
    decreases r.pages
  {
    var out := SpecificAllocationAsWritten(r, addr, n);
    if out.None? || r.pages <= n {
      if out.Some? {
        assert out.value[0] == Range(r.start, n, true);
      }
    } else {
      HalvesWellFormed(r);
      var lower := Covers(LowerHalf(r), addr);
      if !lower {
        UpperHalfCovers(r, addr);
      }
      var half := if lower then LowerHalf(r) else UpperHalf(r);
      SpecificAllocationHoldsAddr(half, addr, n);
      var s := SpecificAllocationAsWritten(half, addr, n).value;
      var k :| 0 <= k < |s| && s[k] == Range(s[k].start, n, true) && Covers(s[k], addr);
      if lower {
        assert out.value == s + [UpperHalf(r)] && out.value[k] == s[k];
      } else {
        assert out.value == [LowerHalf(r)] + s && out.value[k + 1] == s[k];
      }
    }
  }

  /** An address of r that is not in its first half is in its second. */
  lemma UpperHalfCovers(r: Range, addr: int)
    requires WellFormed(UpperHalf(r)) && End(UpperHalf(r)) == End(r)
    requires addr % PAGE == 0 && Covers(r, addr) && !Covers(LowerHalf(r), addr)
    ensures Covers(UpperHalf(r), addr)
  {
    var u := UpperHalf(r).start;
    PageAligned(UpperHalf(r));
    if addr < u {
      NextMultiple(addr, u, PAGE);
    }
  }

  /** The halves of a well-formed range bigger than one page are well
      formed and end where it ends. */
  lemma HalvesWellFormed(r: Range)
    ensures WellFormed(r) && r.pages >= 2 ==>
      WellFormed(LowerHalf(r)) && WellFormed(UpperHalf(r)) && End(UpperHalf(r)) == End(r)
  {
    if WellFormed(r) && r.pages >= 2 {
      HalvesAligned(r.start, r.pages / 2);
    }
  }

  /** Reserving the two pages at 2 * PAGE inside the four allocated pages at
      0 passes every assertion: the one allocation becomes two, and the
      pages requested were handed out already. */
  lemma SpecificAllocationInsideAllocation()
    ensures var r := Range(0, 4, true);
      r.isAllocated && Covers(r, 2 * PAGE) &&
      SpecificAllocationAsWritten(r, 2 * PAGE, 2) == Some([Range(0, 2, true), Range(2 * PAGE, 2, true)]) &&
      Allocated([Range(0, 2, true), Range(2 * PAGE, 2, true)]) == {Range(0, 2, true), Range(2 * PAGE, 2, true)}
  {
    var r := Range(0, 4, true);
    assert !Covers(LowerHalf(r), 2 * PAGE);
    assert UpperHalf(r) == Range(2 * PAGE, 2, false);
    assert SpecificAllocationAsWritten(UpperHalf(r), 2 * PAGE, 2) == Some([Range(2 * PAGE, 2, true)]);
    assert [LowerHalf(r)] + [Range(2 * PAGE, 2, true)] == [Range(0, 2, true), Range(2 * PAGE, 2, true)];
    var out := [Range(0, 2, true), Range(2 * PAGE, 2, true)];
    assert out[0] in out && out[1] in out;
  }
}
