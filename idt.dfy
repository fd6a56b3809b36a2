/** IDT gate encoding and the reserved-interrupt table
    (kernel/processor/x64/interrupts-x64.cpp). Gates follow section 6.14.1 of the
    Intel SDM Volume 3A (64-bit IDT gate descriptors). */
module Idt {
  import opened Common
  import opened Bytes

  const PROC_NUM_INTERRUPTS: nat := 256
  const PROC_NUM_IRQS: nat := 16
  const PROC_IRQ_BASE: nat := 32
  /** Each 64-bit gate is 16 bytes. */
  const IDT_ENTRY_LEN: nat := 16
  const KERNEL_CODE_SELECTOR: u16 := 0x0008

  /** The type word: present, trap gate (type 0xF), DPL 0 or 3, and the IST index. */
  function TypeField(reqPrivLvl: int, istNum: nat): (t: u16)
    requires reqPrivLvl == 0 || reqPrivLvl == 3
    requires 0 < istNum < 8
  {
    0x8F00 + (if reqPrivLvl != 0 then 0x6000 else 0) + istNum
  }

  /** The twelve bytes proc_configure_idt_entry writes: offset[15:0], the code
      selector, the type word, offset[31:16], then offset[63:32]. */
  function GateBytes(reqPrivLvl: int, fnPointer: u64, istNum: nat): (g: seq<byte>)
    requires reqPrivLvl == 0 || reqPrivLvl == 3
    requires 0 < istNum < 8
    ensures |g| == 12
  {
    LE(fnPointer % 0x1_0000, 2) + LE(KERNEL_CODE_SELECTOR, 2) + LE(TypeField(reqPrivLvl, istNum), 2) +
    LE((fnPointer / 0x1_0000) % 0x1_0000, 2) + LE(fnPointer / 0x1_0000_0000, 4)
  }

  /** What the processor reads back from a gate. */
  datatype Gate = Gate(offset: nat, selector: nat, ist: nat, gateType: nat, dpl: nat, present: bool)

  function DecodeGate(g: seq<byte>): Gate
    requires |g| >= 12
  {
    Gate(FromLE(g[0..2]) + 0x1_0000 * FromLE(g[6..8]) + 0x1_0000_0000 * FromLE(g[8..12]),
         FromLE(g[2..4]), g[4] % 8, g[5] % 16, (g[5] / 32) % 4, g[5] >= 0x80)
  }

  /** The gate points at the handler through the kernel code segment, is a
      present trap gate, callable from ring 3 exactly when DPL 3 was asked for,
      and uses the requested interrupt stack. */
  lemma GateDecode(reqPrivLvl: int, fnPointer: u64, istNum: nat)
    requires reqPrivLvl == 0 || reqPrivLvl == 3
    requires 0 < istNum < 8
    ensures DecodeGate(GateBytes(reqPrivLvl, fnPointer, istNum)) ==
            Gate(fnPointer, 0x0008, istNum, 0xF, reqPrivLvl, true)
  {
    GateOffset(reqPrivLvl, fnPointer, istNum);
    GateSelector(reqPrivLvl, fnPointer, istNum);
    GateType(reqPrivLvl, fnPointer, istNum);
  }

  lemma GateOffset(reqPrivLvl: int, fnPointer: u64, istNum: nat)
    requires reqPrivLvl == 0 || reqPrivLvl == 3
    requires 0 < istNum < 8
    ensures DecodeGate(GateBytes(reqPrivLvl, fnPointer, istNum)).offset == fnPointer
  {
    var g := GateBytes(reqPrivLvl, fnPointer, istNum);
    var lo := fnPointer % 0x1_0000;
    var mid := (fnPointer / 0x1_0000) % 0x1_0000;
    var hi := fnPointer / 0x1_0000_0000;
    assert g[0..2] == LE(lo, 2);
    assert g[6..8] == LE(mid, 2);
    assert g[8..12] == LE(hi, 4);
    OffsetParts(fnPointer, FromLE(g[0..2]), FromLE(g[6..8]), FromLE(g[8..12]));
  }

  /** Reading back the three little-endian pieces of a handler address. */
  lemma OffsetParts(fnPointer: u64, lo: nat, mid: nat, hi: nat)
    requires lo == FromLE(LE(fnPointer % 0x1_0000, 2))
    requires mid == FromLE(LE((fnPointer / 0x1_0000) % 0x1_0000, 2))
    requires hi == FromLE(LE(fnPointer / 0x1_0000_0000, 4))
    ensures lo + 0x1_0000 * mid + 0x1_0000_0000 * hi == fnPointer
  {
    Pow256Values();
    LERoundTrip(fnPointer % 0x1_0000, 2);
    LERoundTrip((fnPointer / 0x1_0000) % 0x1_0000, 2);
    LERoundTrip(fnPointer / 0x1_0000_0000, 4);
    SplitAt16(fnPointer);
  }

  /** x is its low 16 bits, the next 16 and the rest. */
  lemma SplitAt16(x: nat)
    ensures x % 0x1_0000 + 0x1_0000 * ((x / 0x1_0000) % 0x1_0000) + 0x1_0000_0000 * (x / 0x1_0000_0000) == x
  {
    var a := x / 0x1_0000;
    assert x == 0x1_0000 * a + x % 0x1_0000;
    assert a == 0x1_0000 * (a / 0x1_0000) + a % 0x1_0000;
    assert a / 0x1_0000 == x / 0x1_0000_0000;
  }

  lemma GateSelector(reqPrivLvl: int, fnPointer: u64, istNum: nat)
    requires reqPrivLvl == 0 || reqPrivLvl == 3
    requires 0 < istNum < 8
    ensures DecodeGate(GateBytes(reqPrivLvl, fnPointer, istNum)).selector == 0x0008
  {
    var g := GateBytes(reqPrivLvl, fnPointer, istNum);
    Pow256Values();
    assert g[2..4] == LE(KERNEL_CODE_SELECTOR, 2);
    LERoundTrip(KERNEL_CODE_SELECTOR, 2);
  }

  lemma GateType(reqPrivLvl: int, fnPointer: u64, istNum: nat)
    requires reqPrivLvl == 0 || reqPrivLvl == 3
    requires 0 < istNum < 8
    ensures var d := DecodeGate(GateBytes(reqPrivLvl, fnPointer, istNum));
      d.ist == istNum && d.gateType == 0xF && d.dpl == reqPrivLvl && d.present
  {
    var g := GateBytes(reqPrivLvl, fnPointer, istNum);
    var t := TypeField(reqPrivLvl, istNum);
    assert g[4..6] == LE(t, 2);
    assert LE(t, 2) == [t % 256, (t / 256) % 256];
    var hiByte := if reqPrivLvl == 0 then 0x8F else 0xEF;
    assert t == 256 * hiByte + istNum;
    assert g[4] == istNum && g[5] == hiByte;
  }

  /** proc_configure_idt_entry: writes bytes [16n, 16n+12) of the table and
      nothing else (the top four bytes of the gate keep their earlier value). */
  method ConfigureIdtEntry(idt: array<byte>, interruptNum: nat, reqPrivLvl: int, fnPointer: u64, istNum: nat)
    requires idt.Length == PROC_NUM_INTERRUPTS * IDT_ENTRY_LEN
    requires interruptNum < PROC_NUM_INTERRUPTS
    requires reqPrivLvl == 0 || reqPrivLvl == 3
    requires 0 < istNum < 8
    modifies idt
    ensures idt[interruptNum * 16..interruptNum * 16 + 12] == GateBytes(reqPrivLvl, fnPointer, istNum)
    ensures forall k :: 0 <= k < idt.Length && !(interruptNum * 16 <= k < interruptNum * 16 + 12) ==>
      idt[k] == old(idt[k])
  {
    var g := GateBytes(reqPrivLvl, fnPointer, istNum);
    var base := interruptNum * IDT_ENTRY_LEN;
    forall k | 0 <= k < 12 {
      idt[base + k] := g[k];
    }
  }

  /** The per-interrupt flags in proc_interrupt_data_table (the handler lists
      are not part of this model). */
  datatype InterruptData = InterruptData(reserved: bool, isIrq: bool)

  /** The loop at the end of proc_configure_idt: the processor-specific vectors
      0..31 and the IRQ vectors 32..47 become reserved; the IRQ vectors are
      marked as IRQs; everything else is left alone. */
  method MarkReservedInterrupts(table: array<InterruptData>)
    requires table.Length == PROC_NUM_INTERRUPTS
    modifies table
    ensures forall i :: 0 <= i < PROC_IRQ_BASE + PROC_NUM_IRQS ==> table[i].reserved
    ensures forall i :: PROC_IRQ_BASE <= i < PROC_IRQ_BASE + PROC_NUM_IRQS ==> table[i].isIrq
    ensures forall i :: 0 <= i < PROC_IRQ_BASE ==> table[i].isIrq == old(table[i].isIrq)
    ensures forall i :: PROC_IRQ_BASE + PROC_NUM_IRQS <= i < table.Length ==> table[i] == old(table[i])
  {
    var i := 0;
    while i < PROC_IRQ_BASE + PROC_NUM_IRQS
      invariant 0 <= i <= PROC_IRQ_BASE + PROC_NUM_IRQS
      invariant forall j :: 0 <= j < i ==> table[j].reserved
      invariant forall j :: PROC_IRQ_BASE <= j < i ==> table[j].isIrq
      invariant forall j :: 0 <= j < PROC_IRQ_BASE ==> table[j].isIrq == old(table[j].isIrq)
      invariant forall j :: i <= j < table.Length ==> table[j] == old(table[j])
    {
      table[i] := table[i].(reserved := true);
      if i >= PROC_IRQ_BASE {
        table[i] := table[i].(isIrq := true);
      }
      i := i + 1;
    }
  }

  /** The vectors proc_configure_idt gives a dedicated handler after the plain
      ones: the Intel-defined exceptions and the sixteen legacy IRQs. Only the
      NMI (vector 2) runs on IST 2. */
  const SpecialVectors: seq<nat> :=
    [0, 1, 2, 3, 4, 5, 6, 7, 8, 10, 11, 12, 13, 14, 16, 17, 18, 19, 20, 30,
     32, 33, 34, 35, 36, 37, 38, 39, 40, 41, 42, 43, 44, 45, 46, 47]

  function SpecialIst(vector: nat): nat
  {
    if vector == 2 then 2 else 1
  }

  /** The gate every vector ends up with after proc_configure_idt. */
  function FinalGate(v: nat, plain: seq<u64>, special: seq<u64>): (g: seq<byte>)
    requires v < PROC_NUM_INTERRUPTS && |plain| == PROC_NUM_INTERRUPTS && |special| == |SpecialVectors|
    ensures |g| == IDT_ENTRY_LEN
  {
    if v in SpecialVectors then
      var j := LastIndexOf(SpecialVectors, v);
      GateBytes(0, special[j], SpecialIst(v)) + [0, 0, 0, 0]
    else GateBytes(0, plain[v], 1) + [0, 0, 0, 0]
  }

  function LastIndexOf(s: seq<nat>, v: nat): (j: nat)
    requires v in s
    ensures j < |s| && s[j] == v && forall k :: j < k < |s| ==> s[k] != v
  {
    if s[|s| - 1] == v then |s| - 1 else LastIndexOf(s[..|s| - 1], v)
  }

  /** proc_x64_config_plain_handlers, on a zeroed table: every vector gets its
      plain handler, DPL 0, IST 1. */
  method ConfigPlainHandlers(idt: array<byte>, plain: seq<u64>)
    requires idt.Length == PROC_NUM_INTERRUPTS * IDT_ENTRY_LEN
    requires |plain| == PROC_NUM_INTERRUPTS
    requires forall k :: 0 <= k < idt.Length ==> idt[k] == 0
    modifies idt
    ensures forall u :: 0 <= u < PROC_NUM_INTERRUPTS ==>
      idt[u * 16..u * 16 + 16] == GateBytes(0, plain[u], 1) + [0, 0, 0, 0]
  {
    var v := 0;
    while v < PROC_NUM_INTERRUPTS
      invariant 0 <= v <= PROC_NUM_INTERRUPTS
      invariant forall u :: 0 <= u < v ==> idt[u * 16..u * 16 + 16] == GateBytes(0, plain[u], 1) + [0, 0, 0, 0]
      invariant forall k :: v * 16 <= k < idt.Length ==> idt[k] == 0
    {
      ghost var before := idt[..];
      ConfigureIdtEntry(idt, v, 0, plain[v], 1);
      forall u | 0 <= u < v
        ensures idt[u * 16..u * 16 + 16] == GateBytes(0, plain[u], 1) + [0, 0, 0, 0]
      {
        EntryUnchanged(before, idt[..], u, v);
      }
      assert idt[v * 16..v * 16 + 16] == idt[v * 16..v * 16 + 12] + idt[v * 16 + 12..v * 16 + 16];
      v := v + 1;
    }
  }

  /** The entry of vector u in a table image. */
  function Entry(s: seq<byte>, u: nat): seq<byte>
    requires |s| == PROC_NUM_INTERRUPTS * IDT_ENTRY_LEN && u < PROC_NUM_INTERRUPTS
  {
    s[u * 16..u * 16 + 16]
  }

  /** The second half of proc_configure_idt's gate writes: the exception and
      IRQ handlers, over the plain gates. */
  method InstallSpecialHandlers(idt: array<byte>, plain: seq<u64>, special: seq<u64>)
    requires idt.Length == PROC_NUM_INTERRUPTS * IDT_ENTRY_LEN
    requires |plain| == PROC_NUM_INTERRUPTS && |special| == |SpecialVectors|
    requires forall u :: 0 <= u < PROC_NUM_INTERRUPTS ==> Entry(idt[..], u) == GateAfter(u, 0, plain, special)
    modifies idt
    ensures forall u :: 0 <= u < PROC_NUM_INTERRUPTS ==> Entry(idt[..], u) == FinalGate(u, plain, special)
  {
    var j := 0;
    while j < |SpecialVectors|
      invariant 0 <= j <= |SpecialVectors|
      invariant forall u :: 0 <= u < PROC_NUM_INTERRUPTS ==> Entry(idt[..], u) == GateAfter(u, j, plain, special)
    {
      ghost var before := idt[..];
      var vec := SpecialVectors[j];
      ConfigureIdtEntry(idt, vec, 0, special[j], SpecialIst(vec));
      SpecialStep(before, idt[..], j, plain, special);
      j := j + 1;
    }
    forall u | 0 <= u < PROC_NUM_INTERRUPTS
      ensures GateAfter(u, |SpecialVectors|, plain, special) == FinalGate(u, plain, special)
    {
      GateAfterAll(u, plain, special);
    }
  }

  /** Writing special vector j's gate advances every entry from GateAfter j
      to GateAfter j + 1. */
  lemma SpecialStep(before: seq<byte>, after: seq<byte>, j: nat, plain: seq<u64>, special: seq<u64>)
    requires |before| == |after| == PROC_NUM_INTERRUPTS * IDT_ENTRY_LEN
    requires |plain| == PROC_NUM_INTERRUPTS && |special| == |SpecialVectors| && j < |SpecialVectors|
    requires forall u :: 0 <= u < PROC_NUM_INTERRUPTS ==> Entry(before, u) == GateAfter(u, j, plain, special)
    requires after[SpecialVectors[j] * 16..SpecialVectors[j] * 16 + 12] ==
      GateBytes(0, special[j], SpecialIst(SpecialVectors[j]))
    requires forall k :: 0 <= k < |after| && !(SpecialVectors[j] * 16 <= k < SpecialVectors[j] * 16 + 12) ==>
      after[k] == before[k]
    ensures forall u :: 0 <= u < PROC_NUM_INTERRUPTS ==> Entry(after, u) == GateAfter(u, j + 1, plain, special)
  {
    forall u | 0 <= u < PROC_NUM_INTERRUPTS
      ensures Entry(after, u) == GateAfter(u, j + 1, plain, special)
    {
      SpecialStepAt(before, after, j, u, plain, special, GateBytes(0, special[j], SpecialIst(SpecialVectors[j])));
    }
  }

  lemma SpecialStepAt(before: seq<byte>, after: seq<byte>, j: nat, u: nat, plain: seq<u64>, special: seq<u64>, g: seq<byte>)
    requires |before| == |after| == PROC_NUM_INTERRUPTS * IDT_ENTRY_LEN && u < PROC_NUM_INTERRUPTS
    requires |plain| == PROC_NUM_INTERRUPTS && |special| == |SpecialVectors| && j < |SpecialVectors|
    requires Entry(before, u) == GateAfter(u, j, plain, special)
    requires g == GateBytes(0, special[j], SpecialIst(SpecialVectors[j]))
    requires after[SpecialVectors[j] * 16..SpecialVectors[j] * 16 + 12] == g
    requires forall k :: 0 <= k < |after| && !(SpecialVectors[j] * 16 <= k < SpecialVectors[j] * 16 + 12) ==>
      after[k] == before[k]
    ensures Entry(after, u) == GateAfter(u, j + 1, plain, special)
  {
    GateAfterStep(u, j, plain, special);
    if u != SpecialVectors[j] {
      EntryUnchanged(before, after, u, SpecialVectors[j]);
    } else {
      SpecialEntryWritten(before, after, u, g, GateAfter(u, j, plain, special));
    }
  }

  lemma SpecialEntryWritten(before: seq<byte>, after: seq<byte>, u: nat, g: seq<byte>, old_entry: seq<byte>)
    requires |before| == |after| == PROC_NUM_INTERRUPTS * IDT_ENTRY_LEN && u < PROC_NUM_INTERRUPTS
    requires |g| == 12
    requires after[u * 16..u * 16 + 12] == g
    requires forall k :: 0 <= k < |after| && !(u * 16 <= k < u * 16 + 12) ==> after[k] == before[k]
    requires Entry(before, u) == old_entry && |old_entry| == 16 && old_entry[12..] == [0, 0, 0, 0]
    ensures Entry(after, u) == g + [0, 0, 0, 0]
  {
    assert after[u * 16 + 12..u * 16 + 16] == before[u * 16 + 12..u * 16 + 16];
    assert before[u * 16 + 12..u * 16 + 16] == old_entry[12..];
    assert Entry(after, u) == after[u * 16..u * 16 + 12] + after[u * 16 + 12..u * 16 + 16];
  }

  /** proc_configure_idt (without loading it into the processor): zero the
      table, point every vector at its plain handler on IST 1, then install the
      exception and IRQ handlers and mark the reserved vectors. The handler
      addresses are parameters. */
  method ConfigureIdt(idt: array<byte>, table: array<InterruptData>, plain: seq<u64>, special: seq<u64>)
    requires idt.Length == PROC_NUM_INTERRUPTS * IDT_ENTRY_LEN
    requires table.Length == PROC_NUM_INTERRUPTS
    requires |plain| == PROC_NUM_INTERRUPTS && |special| == |SpecialVectors|
    modifies idt, table
    ensures forall v :: 0 <= v < PROC_NUM_INTERRUPTS ==> Entry(idt[..], v) == FinalGate(v, plain, special)
    ensures forall i :: 0 <= i < PROC_IRQ_BASE + PROC_NUM_IRQS ==> table[i].reserved
    ensures forall i :: PROC_IRQ_BASE <= i < PROC_IRQ_BASE + PROC_NUM_IRQS ==> table[i].isIrq
  {
    forall k | 0 <= k < idt.Length {
      idt[k] := 0;
    }
    ConfigPlainHandlers(idt, plain);
    forall u | 0 <= u < PROC_NUM_INTERRUPTS
      ensures Entry(idt[..], u) == GateAfter(u, 0, plain, special)
    {
      assert Entry(idt[..], u) == idt[u * 16..u * 16 + 16];
    }
    InstallSpecialHandlers(idt, plain, special);
    MarkReservedInterrupts(table);
  }

  /** Installing special handler j changes only vector SpecialVectors[j]. */
  lemma GateAfterStep(u: nat, j: nat, plain: seq<u64>, special: seq<u64>)
    requires u < PROC_NUM_INTERRUPTS && |plain| == PROC_NUM_INTERRUPTS && |special| == |SpecialVectors|
    requires j < |SpecialVectors|
    ensures u == SpecialVectors[j] ==>
      GateAfter(u, j + 1, plain, special) == GateBytes(0, special[j], SpecialIst(u)) + [0, 0, 0, 0]
    ensures u != SpecialVectors[j] ==> GateAfter(u, j + 1, plain, special) == GateAfter(u, j, plain, special)
  {
    var pre := SpecialVectors[..j];
    assert SpecialVectors[..j + 1] == pre + [SpecialVectors[j]];
    assert SpecialVectors[..j + 1][..j] == pre;
    if u != SpecialVectors[j] && u in pre {
      assert u in SpecialVectors[..j + 1];
      var k := LastIndexOf(SpecialVectors[..j + 1], u);
      assert k < j;
      var k' := LastIndexOf(pre, u);
      assert k == k';
    }
  }

  /** The gate of vector u once the first j special handlers are installed. */
  function GateAfter(u: nat, j: nat, plain: seq<u64>, special: seq<u64>): (g: seq<byte>)
    requires u < PROC_NUM_INTERRUPTS && |plain| == PROC_NUM_INTERRUPTS && |special| == |SpecialVectors|
    requires j <= |SpecialVectors|
    ensures |g| == 16 && g[12..] == [0, 0, 0, 0]
  {
    if u in SpecialVectors[..j] then
      var k := LastIndexOf(SpecialVectors[..j], u);
      GateBytes(0, special[k], SpecialIst(u)) + [0, 0, 0, 0]
    else GateBytes(0, plain[u], 1) + [0, 0, 0, 0]
  }

  lemma GateAfterAll(u: nat, plain: seq<u64>, special: seq<u64>)
    requires u < PROC_NUM_INTERRUPTS && |plain| == PROC_NUM_INTERRUPTS && |special| == |SpecialVectors|
    ensures GateAfter(u, |SpecialVectors|, plain, special) == FinalGate(u, plain, special)
  {
    assert SpecialVectors[..|SpecialVectors|] == SpecialVectors;
  }

  lemma EntryUnchanged(before: seq<byte>, after: seq<byte>, u: nat, v: nat)
    requires |before| == |after| == PROC_NUM_INTERRUPTS * IDT_ENTRY_LEN
    requires u < PROC_NUM_INTERRUPTS && v < PROC_NUM_INTERRUPTS && u != v
    requires forall k :: 0 <= k < |after| && !(v * 16 <= k < v * 16 + 12) ==> after[k] == before[k]
    ensures after[u * 16..u * 16 + 16] == before[u * 16..u * 16 + 16]
  {
    assert u < v ==> u * 16 + 16 <= v * 16;
    assert v < u ==> v * 16 + 12 <= u * 16;
  }
}
