/** The x64 global descriptor table and task-state segments
    (kernel/processor/x64/gdt-x64.cpp). The layouts follow section 7.2.3 of the
    Intel SDM Volume 3A (64-bit TSS descriptor) and section 7.7 (64-bit TSS). */
module Gdt {
  import opened Common
  import opened Bytes

  /** The length of a TSS on Azalea. */
  const TSS_SEG_LENGTH: nat := 104
  /** Six 8-byte code and data segment descriptors precede the TSS descriptors. */
  const GDT_FIXED_LEN: nat := 48
  const TSS_DESC_LEN: nat := 16

  /** proc_gdt_calc_req_len: the result is truncated to 16 bits. */
  function CalcReqLen(numProcs: u32): (r: u16)
    ensures 48 + 16 * numProcs < 0x1_0000 ==> r == GDT_FIXED_LEN + TSS_DESC_LEN * numProcs
  {
    (48 + numProcs * 16) % 0x1_0000
  }

  /** proc_calc_tss_desc_offset. */
  function CalcTssDescOffset(procNum: u32): (r: u16)
    ensures 48 + 16 * procNum < 0x1_0000 ==> r == GDT_FIXED_LEN + TSS_DESC_LEN * procNum
  {
    (48 + 16 * procNum) % 0x1_0000
  }

  /** Every processor's TSS descriptor lies inside the GDT sized for the
      processor count, after the fixed descriptors, and distinct processors'
      descriptors do not overlap (while the length fits in 16 bits). */
  lemma TssDescriptorsFit(numProcs: u32, p: u32, q: u32)
    requires 48 + 16 * numProcs < 0x1_0000
    requires p < numProcs && q < numProcs && p != q
    ensures GDT_FIXED_LEN <= CalcTssDescOffset(p)
    ensures CalcTssDescOffset(p) + TSS_DESC_LEN <= CalcReqLen(numProcs)
    ensures CalcTssDescOffset(p) + TSS_DESC_LEN <= CalcTssDescOffset(q) ||
            CalcTssDescOffset(q) + TSS_DESC_LEN <= CalcTssDescOffset(p)
  {
  }

  /** The 10-byte pseudo-descriptor loaded by LGDT: the limit (length - 1,
      16 bits) and then the 64-bit base. */
  function GdtPointer(loc: u64, len: u16): (s: seq<byte>)
    ensures |s| == 10
  {
    LE((len - 1) % 0x1_0000, 2) + LE(loc, 8)
  }

  lemma GdtPointerDecode(loc: u64, len: u16)
    requires len > 0
    ensures FromLE(GdtPointer(loc, len)[..2]) == len - 1
    ensures FromLE(GdtPointer(loc, len)[2..]) == loc
  {
    Pow256Values();
    var s := GdtPointer(loc, len);
    assert s[..2] == LE(len - 1, 2);
    assert s[2..] == LE(loc, 8);
    LERoundTrip(len - 1, 2);
    LERoundTrip(loc, 8);
  }

  /** proc_gdt_populate_pointer. */
  method PopulatePointer(ptr: array<byte>, loc: u64, len: u16)
    requires ptr.Length >= 10
    modifies ptr
    ensures ptr[..10] == GdtPointer(loc, len)
    ensures ptr[10..] == old(ptr[10..])
  {
    var img := GdtPointer(loc, len);
    forall k | 0 <= k < 10 {
      ptr[k] := img[k];
    }
  }

  /** The 16-byte TSS descriptor for a segment at address base. */
  function TssDescriptor(base: u64): (d: seq<byte>)
    ensures |d| == 16
  {
    var b := LE(base, 8);
    [(TSS_SEG_LENGTH - 1) as byte, 0] + b[0..3] + [0x89, 0x10] + b[3..8] + [0, 0, 0, 0]
  }

  /** The descriptor describes a present, DPL-0, available 64-bit TSS of
      limit 103 with byte granularity, whose base is the segment's address. */
  lemma TssDescriptorDecode(base: u64)
    ensures FromLE(TssDescriptor(base)[0..2]) == TSS_SEG_LENGTH - 1
    ensures TssDescriptor(base)[6] % 16 == 0
    ensures TssDescriptor(base)[5] == 0x89
    ensures FromLE(TssDescriptor(base)[2..5] + TssDescriptor(base)[7..12]) == base
    ensures TssDescriptor(base)[12..16] == [0, 0, 0, 0]
  {
    var d := TssDescriptor(base);
    var b := LE(base, 8);
    assert d[2..5] + d[7..12] == b;
    Pow256Values();
    LERoundTrip(base, 8);
    assert d[0..2] == [103, 0];
  }

  /** The TSS itself: RSP0 at offset 4, IST1 at 36, IST2 at 44, all else zero. */
  function TssSegment(rsp0: u64, ist1: u64, ist2: u64): (t: seq<byte>)
    ensures |t| == TSS_SEG_LENGTH
  {
    Zeros(4) + LE(rsp0, 8) + Zeros(24) + LE(ist1, 8) + LE(ist2, 8) + Zeros(52)
  }

  function Zeros(n: nat): (z: seq<byte>)
    ensures |z| == n && forall i :: 0 <= i < n ==> z[i] == 0
  {
    seq(n, _ => 0)
  }

  lemma TssSegmentDecode(rsp0: u64, ist1: u64, ist2: u64)
    ensures FromLE(TssSegment(rsp0, ist1, ist2)[4..12]) == rsp0
    ensures FromLE(TssSegment(rsp0, ist1, ist2)[36..44]) == ist1
    ensures FromLE(TssSegment(rsp0, ist1, ist2)[44..52]) == ist2
  {
    var t := TssSegment(rsp0, ist1, ist2);
    assert t[4..12] == LE(rsp0, 8);
    assert t[36..44] == LE(ist1, 8);
    assert t[44..52] == LE(ist2, 8);
    Pow256Values();
    LERoundTrip(rsp0, 8);
    LERoundTrip(ist1, 8);
    LERoundTrip(ist2, 8);
  }

  /** proc_generate_tss: allocates a zeroed TSS (whose address the allocator
      decides, given here as segAddr), fills in its descriptor at
      gdt[offset..offset+16) and the three stack pointers in the segment. */
  method GenerateTss(gdt: array<byte>, offset: nat, segAddr: u64,
                     kernelStack: u64, ist1Stack: u64, ist2Stack: u64)
      returns (tss: array<byte>)
    requires offset + TSS_DESC_LEN <= gdt.Length
    modifies gdt
    ensures fresh(tss)
    ensures tss[..] == TssSegment(kernelStack, ist1Stack, ist2Stack)
    ensures gdt[offset..offset + 16] == TssDescriptor(segAddr)
    ensures forall k :: 0 <= k < gdt.Length && !(offset <= k < offset + 16) ==> gdt[k] == old(gdt[k])
  {
    tss := new byte[TSS_SEG_LENGTH](_ => 0);
    var desc := TssDescriptor(segAddr);
    forall k | 0 <= k < 16 {
      gdt[offset + k] := desc[k];
    }
    var img := TssSegment(kernelStack, ist1Stack, ist2Stack);
    forall k | 0 <= k < TSS_SEG_LENGTH && (4 <= k < 12 || 36 <= k < 52) {
      tss[k] := img[k];
    }
    assert forall k :: 0 <= k < TSS_SEG_LENGTH ==> tss[k] == img[k];
  }

  /** A write confined to [o, o+16) leaves every disjoint slice as it was. */
  lemma SliceUnchanged(before: seq<byte>, after: seq<byte>, lo: nat, hi: nat, o: nat)
    requires |before| == |after| && lo <= hi <= |before|
    requires forall k :: 0 <= k < |after| && !(o <= k < o + 16) ==> after[k] == before[k]
    requires hi <= o || o + 16 <= lo
    ensures after[lo..hi] == before[lo..hi]
  {
  }

  /** The stacks one processor's TSS points at, and where the TSS lives. */
  datatype ProcStacks = ProcStacks(tssAddr: u64, kernelStack: u64, ist1: u64, ist2: u64)

  /** The segment t holds the TSS for the stacks in ps. */
  ghost predicate TssHolds(t: array<byte>, ps: ProcStacks)
    reads t
  {
    t[..] == TssSegment(ps.kernelStack, ps.ist1, ps.ist2)
  }

  /** The first i processors' TSS descriptors are in place in g. */
  ghost predicate DescriptorsUpTo(g: seq<byte>, procs: seq<ProcStacks>, i: nat)
    requires i <= |procs| < 0x1_0000_0000
  {
    forall p :: 0 <= p < i ==>
      CalcTssDescOffset(p) + 16 <= |g| && g[CalcTssDescOffset(p)..CalcTssDescOffset(p) + 16] == TssDescriptor(procs[p].tssAddr)
  }

  /** Writing processor i's descriptor keeps the ones written before it. */
  lemma DescriptorsStep(before: seq<byte>, after: seq<byte>, procs: seq<ProcStacks>, numProcs: u32, i: nat)
    requires 48 + 16 * numProcs < 0x1_0000 && |procs| == numProcs && i < numProcs
    requires |before| == |after| == CalcReqLen(numProcs)
    requires DescriptorsUpTo(before, procs, i)
    requires forall k :: 0 <= k < |after| && !(CalcTssDescOffset(i) <= k < CalcTssDescOffset(i) + 16) ==> after[k] == before[k]
    requires CalcTssDescOffset(i) + 16 <= |after|
    requires after[CalcTssDescOffset(i)..CalcTssDescOffset(i) + 16] == TssDescriptor(procs[i].tssAddr)
    ensures DescriptorsUpTo(after, procs, i + 1)
  {
    forall p | 0 <= p < i
      ensures after[CalcTssDescOffset(p)..CalcTssDescOffset(p) + 16] == TssDescriptor(procs[p].tssAddr)
    {
      TssDescriptorsFit(numProcs, p, i);
      SliceUnchanged(before, after, CalcTssDescOffset(p), CalcTssDescOffset(p) + 16, CalcTssDescOffset(i));
    }
  }

  /** proc_recreate_gdt: allocate a GDT long enough for every processor's TSS
      descriptor, copy the fixed part of the boot GDT into it and generate one
      TSS per processor. Memory the allocator hands out (the GDT's address, the
      TSS addresses and the stacks) is given as parameters. */
  method RecreateGdt(numProcs: u32, initialGdt: seq<byte>, gdtAddr: u64, procs: seq<ProcStacks>)
      returns (gdt: array<byte>, tsses: seq<array<byte>>, pointer: seq<byte>)
    requires numProcs > 0 && 48 + 16 * numProcs < 0x1_0000
    requires |procs| == numProcs
    requires |initialGdt| <= GDT_FIXED_LEN
    ensures gdt.Length == CalcReqLen(numProcs)
    ensures gdt[..|initialGdt|] == initialGdt
    ensures |tsses| == numProcs
    ensures forall p :: 0 <= p < numProcs ==>
      gdt[CalcTssDescOffset(p)..CalcTssDescOffset(p) + 16] == TssDescriptor(procs[p].tssAddr)
    ensures forall p :: 0 <= p < numProcs ==> TssHolds(tsses[p], procs[p])
    ensures pointer == GdtPointer(gdtAddr, gdt.Length)
  {
    var len := CalcReqLen(numProcs);
    gdt := new byte[len](_ => 0);
    forall k | 0 <= k < |initialGdt| {
      gdt[k] := initialGdt[k];
    }
    tsses := [];
    var i: nat := 0;
    while i < numProcs
      invariant i <= numProcs
      invariant gdt.Length == len
      invariant gdt[..|initialGdt|] == initialGdt
      invariant |tsses| == i
      invariant forall p :: 0 <= p < i ==> tsses[p] != gdt
      invariant DescriptorsUpTo(gdt[..], procs, i)
      invariant forall p :: 0 <= p < i ==> TssHolds(tsses[p], procs[p])
    {
      var offset := CalcTssDescOffset(i);
      ghost var before := gdt[..];
      var tss := GenerateTss(gdt, offset, procs[i].tssAddr, procs[i].kernelStack,
                             procs[i].ist1, procs[i].ist2);
      SliceUnchanged(before, gdt[..], 0, |initialGdt|, offset);
      assert gdt[..|initialGdt|] == gdt[..][0..|initialGdt|];
      assert gdt[..][offset..offset + 16] == gdt[offset..offset + 16];
      DescriptorsStep(before, gdt[..], procs, numProcs, i);
      forall p | 0 <= p < i
        ensures TssHolds(tsses[p], procs[p])
      {
        assert tsses[p] != gdt;
      }
      tsses := tsses + [tss];
      i := i + 1;
    }
    forall p | 0 <= p < numProcs
      ensures gdt[CalcTssDescOffset(p)..CalcTssDescOffset(p) + 16] == TssDescriptor(procs[p].tssAddr)
    {
      assert gdt[..][CalcTssDescOffset(p)..CalcTssDescOffset(p) + 16] == gdt[CalcTssDescOffset(p)..CalcTssDescOffset(p) + 16];
    }
    pointer := GdtPointer(gdtAddr, len);
  }
}
