/** The USB HID report-descriptor parser (hid_input_descriptor_parser.cpp):
    it walks the short items of a report descriptor (section 6.2.2 of the
    USB HID 1.11 specification), keeps the global state stack and the local
    usage, designator and string queues, and builds the tree of collections
    together with flat lists of the input, output and feature fields. */
module HidParser {
  import opened Common
  import Bytes
  import Arith

  // Item types: bits 2 and 3 of an item's header byte.
  const MAIN: nat := 0
  const GLOBAL: nat := 1
  const LOCAL: nat := 2

  // Main item tags.
  const INPUT: nat := 8
  const OUTPUT: nat := 9
  const COLLECTION: nat := 10
  const FEATURE: nat := 11
  const END_COLLECTION: nat := 12

  // Global item tags.
  const USAGE_PAGE: nat := 0
  const LOGICAL_MIN: nat := 1
  const LOGICAL_MAX: nat := 2
  const PHYSICAL_MIN: nat := 3
  const PHYSICAL_MAX: nat := 4
  const UNIT_EXP: nat := 5
  const UNIT: nat := 6
  const REPORT_SIZE: nat := 7
  const REPORT_ID: nat := 8
  const REPORT_COUNT: nat := 9
  const PUSH: nat := 10
  const POP: nat := 11

  // Local item tags.
  const USAGE: nat := 0
  const USAGE_MIN: nat := 1
  const USAGE_MAX: nat := 2
  const DESIGNATOR_IDX: nat := 3
  const DESIGNATOR_MIN: nat := 4
  const DESIGNATOR_MAX: nat := 5
  const STRING_IDX: nat := 7
  const STRING_MIN: nat := 8
  const STRING_MAX: nat := 9
  const DELIMITER: nat := 10

  /** The header byte of a long item, which the parser does not decode. */
  const LONG_ITEM: byte := 0xFE

  const TWO_TO_32: nat := 0x1_0000_0000

  /* ---------------------------------------------------------------------
     Items on the wire
     --------------------------------------------------------------------- */

  // The header byte packs the size code (bits 0-1), the type (bits 2-3)
  // and the tag (bits 4-7).
  function SizeCode(header: byte): nat { header % 4 }
  function ItemType(header: byte): nat { header / 4 % 4 }
  function ItemTag(header: byte): nat { header / 16 }

  /** The number of data bytes that follow a header: size code 3 means four. */
  function DataLength(sizeCode: nat): nat
  {
    if sizeCode == 3 then 4 else sizeCode
  }

  /** The lengths an item's data can have. */
  predicate ItemSize(len: nat) { len <= 2 || len == 4 }

  /** 2 to the power 8*len: one more than the largest len-byte value. */
  function ByteRange(len: nat): nat
  {
    if len == 0 then 1
    else if len == 1 then 0x100
    else if len == 2 then 0x1_0000
    else if len == 3 then 0x100_0000
    else TWO_TO_32
  }

  /** The byte at i, or 0 past the end of the descriptor. */
  function ByteAt(raw: seq<byte>, i: nat): byte
  {
    if i < |raw| then raw[i] else 0
  }

  /** The little-endian 32-bit word the parser reads after a header. */
  function WordAt(raw: seq<byte>, i: nat): u32
  {
    ByteAt(raw, i) + 0x100 * ByteAt(raw, i + 1) + 0x1_0000 * ByteAt(raw, i + 2)
      + 0x100_0000 * ByteAt(raw, i + 3)
  }

  /** The word with every byte past the item's own data cleared. */
  function ItemData(word: u32, len: nat): u32
  {
    word % ByteRange(len)
  }

  /** The same mask as the source builds it: all ones shifted left by
      8*len bits, then inverted. x86-64 takes a 32-bit shift count modulo
      32, so a four-byte item shifts by nothing and the mask is empty. */
  function ItemDataAsWritten(word: u32, len: nat): (r: u32)
    ensures len < 4 ==> r == ItemData(word, len)
    ensures len == 4 ==> r == 0 && ItemData(word, len) == word
  {
    word % ByteRange(len % 4)
  }

  lemma FromLEOne(s: seq<byte>)
    requires |s| == 1
    ensures Bytes.FromLE(s) == s[0]
  {
    assert s[1..] == [];
  }

  lemma FromLETwo(s: seq<byte>)
    requires |s| == 2
    ensures Bytes.FromLE(s) == s[0] as int + 0x100 * (s[1] as int)
  {
    FromLEOne(s[1..]);
  }

  lemma FromLEThree(s: seq<byte>)
    requires |s| == 3
    ensures Bytes.FromLE(s) == s[0] as int + 0x100 * (s[1] as int) + 0x1_0000 * (s[2] as int)
  {
    FromLETwo(s[1..]);
  }

  lemma FromLEFour(s: seq<byte>)
    requires |s| == 4
    ensures Bytes.FromLE(s) == s[0] as int + 0x100 * (s[1] as int) + 0x1_0000 * (s[2] as int) + 0x100_0000 * (s[3] as int)
  {
    FromLEThree(s[1..]);
  }

  /** The masked data is exactly the little-endian value of the item's own
      data bytes: the bytes that follow the item do not leak into it. */
  lemma ItemDataIsItemBytes(raw: seq<byte>, i: nat, len: nat)
    requires len <= 4 && i + len <= |raw|
    ensures ItemData(WordAt(raw, i), len) == Bytes.FromLE(raw[i..i + len])
  {
    var b0: int, b1: int, b2: int, b3: int := ByteAt(raw, i), ByteAt(raw, i + 1), ByteAt(raw, i + 2), ByteAt(raw, i + 3);
    var w: int := WordAt(raw, i);
    assert w == b0 + 0x100 * b1 + 0x1_0000 * b2 + 0x100_0000 * b3;
    var s := raw[i..i + len];
    if len == 0 {
      assert s == [];
    } else if len == 1 {
      FromLEOne(s);
      Arith.DivModUnique(w, 0x100, b1 + 0x100 * b2 + 0x1_0000 * b3, b0);
    } else if len == 2 {
      FromLETwo(s);
      Arith.DivModUnique(w, 0x1_0000, b2 + 0x100 * b3, b0 + 0x100 * b1);
    } else if len == 3 {
      FromLEThree(s);
      Arith.DivModUnique(w, 0x100_0000, b3, b0 + 0x100 * b1 + 0x1_0000 * b2);
    } else {
      FromLEFour(s);
    }
  }

  /** A four-byte item always reads as zero as written, so for instance a
      Logical Maximum of 0x10000 becomes 0. */
  lemma FourByteItemsReadAsZero(raw: seq<byte>, i: nat)
    ensures ItemDataAsWritten(WordAt(raw, i), 4) == 0
    ensures raw == [0x27, 0x00, 0x00, 0x01, 0x00] ==>
      ItemData(WordAt(raw, 1), 4) == 0x1_0000 && ItemType(raw[0]) == GLOBAL && ItemTag(raw[0]) == LOGICAL_MAX
  {
  }

  /** A short item: its header, the length of its data and the data. */
  datatype Item = Item(header: byte, len: nat, data: u32)

  /** The item whose header byte is at offset. */
  function ItemAt(raw: seq<byte>, offset: nat): (it: Item)
    requires offset < |raw|
    ensures it.header == raw[offset] && ItemSize(it.len) && it.data < ByteRange(it.len)
    ensures it.len == 4 <==> SizeCode(raw[offset]) == 3
  {
    var len := DataLength(SizeCode(raw[offset]));
    Item(raw[offset], len, ItemData(WordAt(raw, offset + 1), len))
  }

  /** The offsets of the items the parser decodes from offset onwards: each
      item starts 1 + data length bytes after the previous one; a long item
      header is the last offset of the walk, and the end of the descriptor
      stops it. */
  function ItemStarts(raw: seq<byte>, offset: nat): set<nat>
    decreases |raw| - offset
  {
    if offset >= |raw| then {}
    else if raw[offset] == LONG_ITEM then {offset}
    else {offset} + ItemStarts(raw, offset + 1 + ItemAt(raw, offset).len)
  }

  /* ---------------------------------------------------------------------
     Global items and the global state stack
     --------------------------------------------------------------------- */

  datatype GlobalState = GlobalState(
    usagePage: u32, logicalMin: int, logicalMax: int, physicalMin: int, physicalMax: int,
    unitExponent: u32, unit: u32, reportSize: u32, reportId: u32, reportCount: u32)

  function DefaultGlobals(): GlobalState
  {
    GlobalState(0, 0, 0, 0, 0, 0, 0, 0, 0, 0)
  }

  /** A 32-bit pattern read as a signed 32-bit integer. */
  function ToI32(x: u32): int
  {
    if x < 0x8000_0000 then x else x - TWO_TO_32
  }

  /** The signed value of a global item: one- and two-byte values whose top
      bit is set are sign-extended (setting the upper bits with an OR),
      longer ones are reinterpreted as 32-bit signed. */
  function SignedData(data: u32, len: nat): (v: int)
    ensures -0x8000_0000 <= v < 0x8000_0000
    ensures len == 1 && data < 0x100 ==> v == if data < 0x80 then data else data - 0x100
    ensures len == 2 && data < 0x1_0000 ==> v == if data < 0x8000 then data else data - 0x1_0000
    ensures len == 4 ==> v == data || v == data - TWO_TO_32
  {
    if len == 1 && data / 0x80 % 2 == 1 then ToI32(0xFFFF_FF00 + data % 0x100)
    else if len == 2 && data / 0x8000 % 2 == 1 then ToI32(0xFFFF_0000 + data % 0x1_0000)
    else ToI32(data)
  }

  /** The global state after an item that sets one of its values. */
  function SetGlobal(g: GlobalState, tag: nat, data: u32, len: nat): GlobalState
    requires tag <= REPORT_COUNT
  {
    if tag == USAGE_PAGE then g.(usagePage := data)
    else if tag == LOGICAL_MIN then g.(logicalMin := SignedData(data, len))
    else if tag == LOGICAL_MAX then g.(logicalMax := SignedData(data, len))
    else if tag == PHYSICAL_MIN then g.(physicalMin := SignedData(data, len))
    else if tag == PHYSICAL_MAX then g.(physicalMax := SignedData(data, len))
    else if tag == UNIT_EXP then g.(unitExponent := data)
    else if tag == UNIT then g.(unit := data)
    else if tag == REPORT_SIZE then g.(reportSize := data)
    else if tag == REPORT_ID then g.(reportId := data)
    else g.(reportCount := data)
  }

  function Last<T>(s: seq<T>): T
    requires s != []
  {
    s[|s| - 1]
  }

  function Pop<T>(s: seq<T>): seq<T>
    requires s != []
  {
    s[..|s| - 1]
  }

  /** What a global item does to the stack: the new stack and the item's
      success, or a fault when it needs the top of an empty stack (the
      source then reads or pops an empty std::stack). */
  datatype GlobalOutcome = GlobalFault | GlobalDone(stack: seq<GlobalState>, ok: bool)

  /** A global item. Push saves a copy of the state in force, as section
      6.2.2.7 of the USB HID 1.11 specification describes. */
  function GlobalItem(stack: seq<GlobalState>, tag: nat, data: u32, len: nat): (r: GlobalOutcome)
    ensures r.GlobalFault? <==> stack == [] && tag <= POP
    ensures r.GlobalDone? ==> (!r.ok <==> tag == REPORT_ID || tag > POP || (tag == POP && |stack| == 1))
    ensures r.GlobalDone? && tag == PUSH ==> r.stack == stack + [Last(stack)]
    ensures r.GlobalDone? && tag == POP ==> r.stack == Pop(stack)
    ensures r.GlobalDone? && tag < PUSH ==>
      |r.stack| == |stack| && Pop(r.stack) == Pop(stack) && Last(r.stack) == SetGlobal(Last(stack), tag, data, len)
    ensures r.GlobalDone? && tag > POP ==> r.stack == stack
  {
    if tag == PUSH then
      if stack == [] then GlobalFault else GlobalDone(stack + [Last(stack)], true)
    else if tag == POP then
      if stack == [] then GlobalFault else GlobalDone(Pop(stack), |stack| > 1)
    else if tag > POP then GlobalDone(stack, false)
    else if stack == [] then GlobalFault
    else GlobalDone(Pop(stack) + [SetGlobal(Last(stack), tag, data, len)], tag != REPORT_ID)
  }

  /** Push as written: it places a default-initialised state on the stack
      instead of a copy of the current one. */
  function GlobalItemAsWritten(stack: seq<GlobalState>, tag: nat, data: u32, len: nat): (r: GlobalOutcome)
    ensures tag != PUSH ==> r == GlobalItem(stack, tag, data, len)
    ensures tag == PUSH ==> r.GlobalDone? && r.ok && r.stack != [] && Pop(r.stack) == stack && Last(r.stack) == DefaultGlobals()
  {
    if tag == PUSH then GlobalDone(stack + [DefaultGlobals()], true)
    else GlobalItem(stack, tag, data, len)
  }

  /** Pop undoes Push, whatever was set in between. */
  lemma PushPopRestores(stack: seq<GlobalState>, tag: nat, data: u32, len: nat)
    requires stack != [] && tag < PUSH
    ensures var pushed := GlobalItem(stack, PUSH, 0, 0).stack;
            var changed := GlobalItem(pushed, tag, data, len).stack;
            GlobalItem(changed, POP, 0, 0) == GlobalDone(stack, true)
  {
    var pushed := GlobalItem(stack, PUSH, 0, 0).stack;
    var changed := GlobalItem(pushed, tag, data, len).stack;
    assert Pop(changed) == Pop(pushed) == stack;
  }

  /* ---------------------------------------------------------------------
     Local items and the usage, designator and string queues
     --------------------------------------------------------------------- */

  /** One queued local value: a single value, or a minimum-maximum range
      whose next value is item. */
  datatype LocalField = LocalField(item: u32, itemMin: u32, itemMax: u32, isMinMax: bool)

  datatype LocalState = LocalState(
    usage: seq<LocalField>, designator: seq<LocalField>, strings: seq<LocalField>, hasHadDelimiter: bool)

  function EmptyLocal(): LocalState
  {
    LocalState([], [], [], false)
  }

  /** A one- or two-byte usage ORed with the usage page shifted left by 16
      in 32 bits: the page's top half is lost and the two never overlap. */
  function UsageWithPage(data: u32, page: u32): (u: u32)
    requires data < 0x1_0000
    ensures u % 0x1_0000 == data && u / 0x1_0000 == page % 0x1_0000
  {
    data + (page % 0x1_0000) * 0x1_0000
  }

  function PushSingle(q: seq<LocalField>, v: u32): seq<LocalField>
  {
    q + [LocalField(v, 0, 0, false)]
  }

  /** The queue with a range at its back: the existing one, or a new one
      when the queue is empty or ends in a single value. */
  function OpenRange(q: seq<LocalField>): (r: seq<LocalField>)
    ensures r != [] && Last(r).isMinMax
  {
    if q != [] && Last(q).isMinMax then q else q + [LocalField(0, 0, 0, true)]
  }

  function SetRangeMin(q: seq<LocalField>, v: u32): seq<LocalField>
  {
    var r := OpenRange(q);
    Pop(r) + [Last(r).(item := v, itemMin := v)]
  }

  function SetRangeMax(q: seq<LocalField>, v: u32): seq<LocalField>
  {
    var r := OpenRange(q);
    Pop(r) + [Last(r).(itemMax := v)]
  }

  /** A minimum and a maximum, in either order, fill one range entry. */
  lemma RangeFromMinAndMax(q: seq<LocalField>, lo: u32, hi: u32)
    ensures var base := if q != [] && Last(q).isMinMax then Pop(q) else q;
            SetRangeMax(SetRangeMin(q, lo), hi) == base + [LocalField(lo, lo, hi, true)] &&
            SetRangeMin(SetRangeMax(q, hi), lo) == base + [LocalField(lo, lo, hi, true)]
  {
  }

  predicate IsLocalTag(tag: nat) { tag <= DELIMITER && tag != 6 }

  /** A usage taken from an item: its low half is the item's, its high half
      the current usage page for a short item and the item's own for a
      four-byte one. */
  ghost predicate CarriesPage(u: u32, data: u32, len: nat, stack: seq<GlobalState>)
  {
    u % 0x1_0000 == data % 0x1_0000 &&
    (len < 4 ==> stack != [] && u / 0x1_0000 == Last(stack).usagePage % 0x1_0000) &&
    (len == 4 ==> u == data)
  }

  datatype LocalOutcome = LocalFault | LocalDone(local: LocalState, ok: bool)

  /** A local item. Once a delimiter has been seen every local item is
      ignored; usages shorter than four bytes take their page from the top
      of the global stack. */
  function LocalItem(ls: LocalState, stack: seq<GlobalState>, tag: nat, data: u32, len: nat): (r: LocalOutcome)
    requires ItemSize(len) && data < ByteRange(len)
    ensures r.LocalFault? <==> !ls.hasHadDelimiter && tag <= USAGE_MAX && len < 4 && stack == []
    ensures r.LocalDone? ==> (r.ok <==> ls.hasHadDelimiter || IsLocalTag(tag))
    ensures ls.hasHadDelimiter ==> r == LocalDone(ls, true)
    ensures r.LocalDone? && !ls.hasHadDelimiter && tag == USAGE ==>
      |r.local.usage| == |ls.usage| + 1 && Pop(r.local.usage) == ls.usage &&
      !Last(r.local.usage).isMinMax && CarriesPage(Last(r.local.usage).item, data, len, stack)
    ensures r.LocalDone? && !ls.hasHadDelimiter && tag == USAGE_MIN ==>
      r.local.usage != [] && Last(r.local.usage).isMinMax && CarriesPage(Last(r.local.usage).itemMin, data, len, stack)
    ensures r.LocalDone? && !ls.hasHadDelimiter && tag == USAGE_MAX ==>
      r.local.usage != [] && Last(r.local.usage).isMinMax && CarriesPage(Last(r.local.usage).itemMax, data, len, stack)
  {
    if ls.hasHadDelimiter then LocalDone(ls, true)
    else if tag <= USAGE_MAX && len < 4 && stack == [] then LocalFault
    else
      var v := if tag <= USAGE_MAX && len < 4 then UsageWithPage(data, Last(stack).usagePage) else data;
      if tag == USAGE then LocalDone(ls.(usage := PushSingle(ls.usage, v)), true)
      else if tag == USAGE_MIN then LocalDone(ls.(usage := SetRangeMin(ls.usage, v)), true)
      else if tag == USAGE_MAX then LocalDone(ls.(usage := SetRangeMax(ls.usage, v)), true)
      else if tag == DESIGNATOR_IDX then LocalDone(ls.(designator := PushSingle(ls.designator, v)), true)
      else if tag == DESIGNATOR_MIN then LocalDone(ls.(designator := SetRangeMin(ls.designator, v)), true)
      else if tag == DESIGNATOR_MAX then LocalDone(ls.(designator := SetRangeMax(ls.designator, v)), true)
      else if tag == STRING_IDX then LocalDone(ls.(strings := PushSingle(ls.strings, v)), true)
      else if tag == STRING_MIN then LocalDone(ls.(strings := SetRangeMin(ls.strings, v)), true)
      else if tag == STRING_MAX then LocalDone(ls.(strings := SetRangeMax(ls.strings, v)), true)
      else if tag == DELIMITER then LocalDone(ls.(hasHadDelimiter := true), true)
      else LocalDone(ls, false)
  }

  /** The next value from a queue and the queue after it. A single value is
      used once unless it is the last entry; a range counts up from its
      minimum and is dropped after its maximum unless it is the last entry,
      which then keeps giving its maximum. An empty queue gives 0. The
      count is a 32-bit unsigned integer. */
  function NextValue(q: seq<LocalField>): (r: (u32, seq<LocalField>))
    ensures q == [] ==> r == (0, [])
    ensures q != [] ==> r.0 == q[0].item && r.1 != []
    ensures |q| > 1 && !q[0].isMinMax ==> r.1 == q[1..]
    ensures |q| == 1 && !q[0].isMinMax ==> r.1 == q
  {
    if q == [] then (0, [])
    else
      var f := q[0];
      if f.isMinMax then
        var next := (f.item + 1) % TWO_TO_32;
        if next > f.itemMax then
          if |q| > 1 then (f.item, q[1..]) else (f.item, q)
        else (f.item, q[0 := f.(item := next)])
      else if |q| > 1 then (f.item, q[1..])
      else (f.item, q)
  }

  /** The values k successive requests take from a queue. */
  function Values(q: seq<LocalField>, k: nat): (vs: seq<u32>)
    ensures |vs| == k
    decreases k
  {
    if k == 0 then [] else [NextValue(q).0] + Values(NextValue(q).1, k - 1)
  }

  /** A lone range counts up from its next value and then stays at its
      maximum. */
  lemma {:induction false} LoneRangeCountsUp(c: u32, lo: u32, hi: u32, k: nat)
    requires c <= hi < UINT32_MAX
    ensures forall j | 0 <= j < k :: Values([LocalField(c, lo, hi, true)], k)[j] == Min(c + j, hi)
    decreases k
  {
    if k > 0 {
      var q := [LocalField(c, lo, hi, true)];
      var c' := if c < hi then c + 1 else c;
      assert (c + 1) % TWO_TO_32 == c + 1;
      if c < hi {
        assert q[0 := q[0].(item := c + 1)] == [LocalField(c', lo, hi, true)];
      }
      assert NextValue(q) == (c, [LocalField(c', lo, hi, true)]);
      LoneRangeCountsUp(c', lo, hi, k - 1);
      var vs := Values(q, k);
      forall j | 0 <= j < k
        ensures vs[j] == Min(c + j, hi)
      {
        if j > 0 {
          assert vs[j] == Values([LocalField(c', lo, hi, true)], k - 1)[j - 1];
        }
      }
    }
  }

  /** A range in front of other entries gives each of its values once and
      then hands over to the entries behind it. */
  lemma {:induction false} RangeThenRest(q: seq<LocalField>, k: nat)
    requires |q| > 1 && q[0].isMinMax && q[0].item <= q[0].itemMax < UINT32_MAX
    ensures var n := q[0].itemMax - q[0].item + 1;
            Values(q, n + k) == seq(n, j requires 0 <= j < n => q[0].item + j) + Values(q[1..], k)
    decreases q[0].itemMax - q[0].item
  {
    var f := q[0];
    var n := f.itemMax - f.item + 1;
    if f.item == f.itemMax {
      assert NextValue(q) == (f.item, q[1..]);
    } else {
      var q' := q[0 := f.(item := f.item + 1)];
      assert NextValue(q) == (f.item, q');
      assert q'[1..] == q[1..];
      RangeThenRest(q', k);
      var head := seq(n, j requires 0 <= j < n => f.item + j);
      var head' := seq(n - 1, j requires 0 <= j < n - 1 => f.item + 1 + j);
      assert head == [f.item] + head';
    }
  }

  /** A queue of single values gives them in order and then repeats the
      last one. */
  lemma {:induction false} SinglesRepeatLast(q: seq<LocalField>, k: nat)
    requires q != [] && forall i | 0 <= i < |q| :: !q[i].isMinMax
    ensures forall j | 0 <= j < k :: Values(q, k)[j] == q[Min(j, |q| - 1)].item
  {
    if k > 0 {
      var q' := NextValue(q).1;
      SinglesRepeatLast(q', k - 1);
      var vs := Values(q, k);
      forall j | 0 <= j < k
        ensures vs[j] == q[Min(j, |q| - 1)].item
      {
        if j > 0 {
          assert vs[j] == Values(q', k - 1)[j - 1];
          if |q| > 1 {
            assert q'[Min(j - 1, |q'| - 1)] == q[Min(j, |q| - 1)];
          }
        }
      }
    }
  }

  /* ---------------------------------------------------------------------
     Fields and collections
     --------------------------------------------------------------------- */

  datatype FieldKind = InputField | OutputField | FeatureField

  /** A decoded report field: where it sits in its report, how wide it is,
      and the local and global values in force when it was declared. */
  datatype Field = Field(
    kind: FieldKind, flags: u16, byteOffset: byte, bitOffset: nat, numBits: byte,
    usage: u32, designator: u32, stringIdx: u32,
    logicalMin: int, logicalMax: int, physicalMin: int, physicalMax: int,
    unitExponent: u32, unit: u32)

  // Bits 0 and 1 of a main item's flags: Constant and Variable.
  predicate IsConstant(flags: u16) { flags % 2 == 1 }
  predicate IsVariable(flags: u16) { flags / 2 % 2 == 1 }
  predicate IsArray(flags: u16) { !IsConstant(flags) && !IsVariable(flags) }

  /** The bit position of a field in its report, from its byte and bit
      offsets. */
  function BitPos(f: Field): nat
  {
    f.byteOffset * 8 + f.bitOffset
  }

  /** y's eight-bit byte offset and bit offset together give y modulo 2048. */
  lemma SplitOffset(y: nat)
    ensures (y / 8 % 0x100) * 8 + y % 8 == y % 2048
  {
    var a, b := y / 8, y % 8;
    var c, d := a / 0x100, a % 0x100;
    assert y == 2048 * c + (8 * d + b);
    Arith.DivModUnique(y, 2048, c, 8 * d + b);
  }

  /** A new field placed at bit total of its report: it carries the global
      values in force, and its position is total split into a byte offset
      (kept in eight bits) and a bit offset. */
  function NewField(kind: FieldKind, flags: u16, g: GlobalState, usage: u32, designator: u32,
                    stringIdx: u32, total: u32): (f: Field)
    ensures BitPos(f) == total % 2048 && f.bitOffset < 8 && f.numBits == Low8(g.reportSize)
    ensures f.kind == kind && f.flags == flags
    ensures f.logicalMin == g.logicalMin && f.logicalMax == g.logicalMax
    ensures f.physicalMin == g.physicalMin && f.physicalMax == g.physicalMax
  {
    SplitOffset(total);
    Field(kind, flags, total / 8 % 0x100, total % 8, Low8(g.reportSize), usage, designator, stringIdx,
          g.logicalMin, g.logicalMax, g.physicalMin, g.physicalMax, g.unitExponent, g.unit)
  }

  /** The field as written: its physical maximum is copied from the
      physical minimum. */
  function NewFieldAsWritten(kind: FieldKind, flags: u16, g: GlobalState, usage: u32, designator: u32,
                             stringIdx: u32, total: u32): (f: Field)
    ensures f.physicalMax == g.physicalMin
    ensures f.(physicalMax := g.physicalMax) == NewField(kind, flags, g, usage, designator, stringIdx, total)
  {
    NewField(kind, flags, g, usage, designator, stringIdx, total).(physicalMax := g.physicalMin)
  }

  /** Whenever the descriptor gives distinct physical bounds, the field as
      written loses its physical maximum. */
  lemma PhysicalMaximumLost(kind: FieldKind, flags: u16, g: GlobalState, usage: u32, designator: u32,
                            stringIdx: u32, total: u32)
    requires g.physicalMin != g.physicalMax
    ensures NewFieldAsWritten(kind, flags, g, usage, designator, stringIdx, total).physicalMax != g.physicalMax
    ensures NewField(kind, flags, g, usage, designator, stringIdx, total).physicalMax == g.physicalMax
  {
  }

  /** A sum kept in a 32-bit unsigned integer. */
  function Wrap32(x: int): u32 { x % TWO_TO_32 }

  /** A 32-bit value cast to eight bits. */
  function Low8(x: u32): byte { x % 0x100 }

  /** The next field of a main item and the local state after it. A constant
      field takes no usage, a variable one the next usage, and an array one
      the minimum of the first usage entry; every field takes the next
      designator and string. (An array field with no usage entry is a
      failed assertion in the kernel; the parser faults before it asks for
      one, so the 0 here is never used.) */
  function NextField(kind: FieldKind, flags: u16, g: GlobalState, ls: LocalState, total: u32): (r: (Field, LocalState))
    ensures r.0.kind == kind && r.0.flags == flags && r.0.numBits == Low8(g.reportSize)
    ensures BitPos(r.0) == total % 2048
    ensures r.1.hasHadDelimiter == ls.hasHadDelimiter
    ensures !IsVariable(flags) || IsConstant(flags) ==> r.1.usage == ls.usage
  {
    var (usage, usageQueue) :=
      if IsConstant(flags) then (0, ls.usage)
      else if IsVariable(flags) then NextValue(ls.usage)
      else if ls.usage == [] then (0, ls.usage)
      else (ls.usage[0].itemMin, ls.usage);
    var (designator, designatorQueue) := NextValue(ls.designator);
    var (stringIdx, stringQueue) := NextValue(ls.strings);
    (NewField(kind, flags, g, usage, designator, stringIdx, total),
     ls.(usage := usageQueue, designator := designatorQueue, strings := stringQueue))
  }

  /** The fields a main item declares, the local state after them and the
      report's new bit total. */
  datatype Run = Run(fields: seq<Field>, local: LocalState, total: u32)

  function FieldRun(kind: FieldKind, flags: u16, g: GlobalState, ls: LocalState, total: u32, n: nat): (r: Run)
    ensures |r.fields| == n
    ensures IsArray(flags) ==> r.local.usage == ls.usage
  {
    if n == 0 then Run([], ls, total)
    else
      var prev := FieldRun(kind, flags, g, ls, total, n - 1);
      var (f, ls') := NextField(kind, flags, g, prev.local, prev.total);
      Run(prev.fields + [f], ls', Wrap32(prev.total + Low8(g.reportSize)))
  }

  lemma FieldRunStep(kind: FieldKind, flags: u16, g: GlobalState, ls: LocalState, total: u32, n: nat,
                     fields: seq<Field>, local: LocalState, bits: u32)
    requires FieldRun(kind, flags, g, ls, total, n) == Run(fields, local, bits)
    ensures var next := NextField(kind, flags, g, local, bits);
            FieldRun(kind, flags, g, ls, total, n + 1) ==
              Run(fields + [next.0], next.1, Wrap32(bits + next.0.numBits))
  {
  }

  /** The bit position j fields of w bits after total: total + j * w. */
  function Advance(total: nat, w: nat, j: nat): (r: nat)
    ensures r == total + j * w
  {
    if j == 0 then total else Advance(total, w, j - 1) + w
  }

  /** Field j of a main item starts report_size bits after field j - 1, and
      the total moves on by report_size bits per field (in 32 bits). */
  lemma {:induction false} FieldRunOffsets(kind: FieldKind, flags: u16, g: GlobalState, ls: LocalState,
                                           total: u32, n: nat, r: Run)
    requires r == FieldRun(kind, flags, g, ls, total, n)
    ensures r.total == Advance(total, Low8(g.reportSize), n) % TWO_TO_32
    ensures forall j | 0 <= j < n :: BitPos(r.fields[j]) == Advance(total, Low8(g.reportSize), j) % 2048 &&
                                     r.fields[j].numBits == Low8(g.reportSize) && r.fields[j].kind == kind
  {
    if n > 0 {
      var prev := FieldRun(kind, flags, g, ls, total, n - 1);
      FieldRunOffsets(kind, flags, g, ls, total, n - 1, prev);
      FieldRunOffsetStep(kind, flags, g, ls, total, n - 1, prev, r);
    }
  }

  lemma FieldRunOffsetStep(kind: FieldKind, flags: u16, g: GlobalState, ls: LocalState, total: u32, n: nat,
                           prev: Run, r: Run)
    requires prev == FieldRun(kind, flags, g, ls, total, n) && r == FieldRun(kind, flags, g, ls, total, n + 1)
    requires prev.total == Advance(total, Low8(g.reportSize), n) % TWO_TO_32
    ensures |r.fields| == n + 1 && r.fields == prev.fields + [r.fields[n]]
    ensures r.total == Advance(total, Low8(g.reportSize), n + 1) % TWO_TO_32
    ensures BitPos(r.fields[n]) == Advance(total, Low8(g.reportSize), n) % 2048
    ensures r.fields[n].numBits == Low8(g.reportSize) && r.fields[n].kind == kind
  {
    var w := Low8(g.reportSize);
    var x := Advance(total, w, n);
    ModThenAdd(x, w, TWO_TO_32);
    ModMod2048(x);
  }

  /** Reducing modulo m first does not change the remainder of a sum. */
  lemma ModThenAdd(x: nat, w: nat, m: nat)
    requires m > 0
    ensures (x % m + w) % m == (x + w) % m
  {
    var q, r := x / m, x % m;
    var q2, r2 := (r + w) / m, (r + w) % m;
    assert x + w == m * (q + q2) + r2;
    Arith.DivModUnique(x + w, m, q + q2, r2);
  }

  /** 2048 divides 2^32. */
  lemma ModMod2048(x: nat)
    ensures x % TWO_TO_32 % 2048 == x % 2048
  {
    var q, r := x / TWO_TO_32, x % TWO_TO_32;
    var q2, r2 := r / 2048, r % 2048;
    assert x == 2048 * (q * 0x20_0000 + q2) + r2;
    Arith.DivModUnique(x, 2048, q * 0x20_0000 + q2, r2);
  }

  function SumBits(fs: seq<Field>): nat
  {
    if fs == [] then 0 else SumBits(Pop(fs)) + Last(fs).numBits
  }

  /** Every field of a report list starts where the fields before it end
      (modulo 2048 bits, the reach of an eight-bit byte offset). */
  ghost predicate Packed(fs: seq<Field>)
  {
    forall j {:trigger BitPos(fs[j])} | 0 <= j < |fs| :: BitPos(fs[j]) == SumBits(fs[..j]) % 2048
  }

  lemma PackedStep(fs: seq<Field>, total: u32, f: Field)
    requires Packed(fs) && total == SumBits(fs) % TWO_TO_32 && BitPos(f) == total % 2048
    ensures Packed(fs + [f]) && Wrap32(total + f.numBits) == SumBits(fs + [f]) % TWO_TO_32
  {
    var fs' := fs + [f];
    assert Pop(fs') == fs;
    forall j | 0 <= j < |fs'|
      ensures BitPos(fs'[j]) == SumBits(fs'[..j]) % 2048
    {
      if j == |fs| {
        assert fs'[..j] == fs;
        ModMod2048(SumBits(fs));
      } else {
        assert fs'[..j] == fs[..j];
      }
    }
    ModThenAdd(SumBits(fs), f.numBits, TWO_TO_32);
  }

  /** A collection: its type, the usage, designator and string it was
      opened with, its own report fields and its child collections. */
  datatype Collection = Collection(
    collectionType: byte, usage: u32, designator: u32, stringIdx: u32,
    fields: seq<Field>, children: seq<Collection>)

  function EmptyCollection(): Collection
  {
    Collection(0, 0, 0, 0, [], [])
  }

  /** A path of child indices from the root leads to a collection. */
  predicate ValidPath(t: Collection, p: seq<nat>)
    decreases p
  {
    p == [] || (p[0] < |t.children| && ValidPath(t.children[p[0]], p[1..]))
  }

  function At(t: Collection, p: seq<nat>): Collection
    requires ValidPath(t, p)
    decreases p
  {
    if p == [] then t else At(t.children[p[0]], p[1..])
  }

  /** The tree with fields appended to the collection at p. */
  function AppendAt(t: Collection, p: seq<nat>, fs: seq<Field>): (r: Collection)
    requires ValidPath(t, p)
    ensures ValidPath(r, p) && At(r, p).fields == At(t, p).fields + fs
    decreases p
  {
    if p == [] then t.(fields := t.fields + fs)
    else
      var c := AppendAt(t.children[p[0]], p[1..], fs);
      t.(children := t.children[p[0] := c])
  }

  lemma {:induction false} AppendAtNothing(t: Collection, p: seq<nat>)
    requires ValidPath(t, p)
    ensures AppendAt(t, p, []) == t
    decreases p
  {
    if p == [] {
      assert t.fields + [] == t.fields;
    } else {
      AppendAtNothing(t.children[p[0]], p[1..]);
      assert t.children[p[0] := t.children[p[0]]] == t.children;
    }
  }

  lemma {:induction false} AppendAtTwice(t: Collection, p: seq<nat>, a: seq<Field>, b: seq<Field>)
    requires ValidPath(t, p)
    ensures AppendAt(AppendAt(t, p, a), p, b) == AppendAt(t, p, a + b)
    decreases p
  {
    if p != [] {
      AppendAtTwice(t.children[p[0]], p[1..], a, b);
    }
  }

  /** The tree with child c added last under the collection at p. */
  function AddChild(t: Collection, p: seq<nat>, c: Collection): (r: Collection)
    requires ValidPath(t, p)
    ensures ValidPath(r, p + [|At(t, p).children|]) && At(r, p + [|At(t, p).children|]) == c
    decreases p
  {
    if p == [] then t.(children := t.children + [c])
    else
      var c' := AddChild(t.children[p[0]], p[1..], c);
      var r := t.(children := t.children[p[0] := c']);
      assert (p + [|At(t, p).children|])[1..] == p[1..] + [|At(t, p).children|];
      r
  }

  /** The parent of the collection at p; the root has none. */
  function Parent(p: seq<nat>): Option<seq<nat>>
  {
    if p == [] then None else Some(Pop(p))
  }

  /** Closing a collection returns to the one it was opened in. */
  lemma CloseReturnsToOpener(t: Collection, p: seq<nat>, c: Collection)
    requires ValidPath(t, p)
    ensures var child := p + [|At(t, p).children|];
            ValidPath(AddChild(t, p, c), child) && Parent(child) == Some(p)
  {
    assert Pop(p + [|At(t, p).children|]) == p;
  }

  function Sum(s: seq<nat>): nat
  {
    if s == [] then 0 else Sum(Pop(s)) + Last(s)
  }

  lemma {:induction false} SumUpdate(s: seq<nat>, i: nat, v: nat)
    requires i < |s|
    ensures Sum(s[i := v]) + s[i] == Sum(s) + v
  {
    if i < |s| - 1 {
      assert Pop(s[i := v]) == Pop(s)[i := v];
      SumUpdate(Pop(s), i, v);
    } else {
      assert Pop(s[i := v]) == Pop(s);
    }
  }

  function ChildCounts(t: Collection): seq<nat>
    decreases t, 0
  {
    seq(|t.children|, i requires 0 <= i < |t.children| => CountFields(t.children[i]))
  }

  /** The number of report fields in a tree. */
  function CountFields(t: Collection): nat
    decreases t, 1
  {
    |t.fields| + Sum(ChildCounts(t))
  }

  lemma {:induction false} CountAppendAt(t: Collection, p: seq<nat>, fs: seq<Field>)
    requires ValidPath(t, p)
    ensures CountFields(AppendAt(t, p, fs)) == CountFields(t) + |fs|
    decreases p
  {
    var r := AppendAt(t, p, fs);
    if p == [] {
      assert ChildCounts(r) == ChildCounts(t);
    } else {
      var c := t.children[p[0]];
      CountAppendAt(c, p[1..], fs);
      assert ChildCounts(r) == ChildCounts(t)[p[0] := CountFields(AppendAt(c, p[1..], fs))];
      SumUpdate(ChildCounts(t), p[0], CountFields(AppendAt(c, p[1..], fs)));
    }
  }

  lemma {:induction false} CountAddChild(t: Collection, p: seq<nat>, c: Collection)
    requires ValidPath(t, p)
    ensures CountFields(AddChild(t, p, c)) == CountFields(t) + CountFields(c)
    decreases p
  {
    var r := AddChild(t, p, c);
    if p == [] {
      assert ChildCounts(r) == ChildCounts(t) + [CountFields(c)];
      assert Pop(ChildCounts(r)) == ChildCounts(t);
    } else {
      var d := t.children[p[0]];
      CountAddChild(d, p[1..], c);
      assert ChildCounts(r) == ChildCounts(t)[p[0] := CountFields(AddChild(d, p[1..], c))];
      SumUpdate(ChildCounts(t), p[0], CountFields(AddChild(d, p[1..], c)));
    }
  }

  /** The collection a Collection item opens: its type is the item's low
      byte, and it takes the next usage, designator and string. */
  function OpenedCollection(data: u32, ls: LocalState): Collection
  {
    Collection(data % 0x100, NextValue(ls.usage).0, NextValue(ls.designator).0, NextValue(ls.strings).0, [], [])
  }

  /** The collection cursor as the source keeps it: the current collection,
      and the collections whose parent link has been cleared. Each End
      Collection clears the link of the collection it returns to rather
      than of the one it closes. */
  datatype Cursor = Cursor(current: Option<seq<nat>>, cut: set<seq<nat>>)

  function EndCollectionAsWritten(c: Cursor): (r: Cursor)
    requires c.current.Some?
    ensures c.cut <= r.cut
    ensures r.current.None? <==> c.current.value == [] || c.current.value in c.cut
    ensures r.current.Some? ==> Some(r.current.value) == Parent(c.current.value) && r.current.value in r.cut
  {
    var p := c.current.value;
    if p == [] || p in c.cut then Cursor(None, c.cut)
    else Cursor(Some(Pop(p)), c.cut + {Pop(p)})
  }

  function OpenAsWritten(c: Cursor, k: nat): (r: Cursor)
    requires c.current.Some?
    ensures r.current.Some? && Parent(r.current.value) == c.current && r.cut == c.cut
  {
    Cursor(Some(c.current.value + [k]), c.cut)
  }

  /** Two nested collections closed in turn leave the cursor on no
      collection at all, so the next item hits the null-collection check;
      closing them properly returns to the root. */
  lemma NestedCloseLosesCursor()
    ensures var start := Cursor(Some([]), {});
            var inner := OpenAsWritten(OpenAsWritten(start, 0), 0);
            var back := EndCollectionAsWritten(EndCollectionAsWritten(inner));
            back.current == None
    ensures Parent([0, 0]) == Some([0]) && Parent([0]) == Some([])
  {
    var start := Cursor(Some([]), {});
    var inner := OpenAsWritten(OpenAsWritten(start, 0), 0);
    assert [] + [0] == [0] && [0] + [0] == [0, 0];
    assert inner.current == Some([0, 0]);
    assert Pop([0, 0]) == [0];
    var once := EndCollectionAsWritten(inner);
    assert once == Cursor(Some([0]), {[0]});
  }

  /* ---------------------------------------------------------------------
     The parser
     --------------------------------------------------------------------- */

  /** The decoded descriptor: the tree and the three flat field lists. */
  datatype Descriptor = Descriptor(root: Collection, inputs: seq<Field>, outputs: seq<Field>, features: seq<Field>)

  /** The result of parsing: success and the decoded descriptor, or the
      offset of the item at which the kernel would stop on a failed check. */
  datatype ParseOutcome = Parsed(ok: bool, descriptor: Descriptor) | Faulted(offset: nat)

  ghost predicate AllOfKind(fs: seq<Field>, kind: FieldKind)
  {
    forall j | 0 <= j < |fs| :: fs[j].kind == kind
  }

  /** A decoded descriptor's lists hold exactly as many fields as its tree,
      each list holds its own kind, and each list's fields sit back to back. */
  ghost predicate WellDecoded(d: Descriptor)
  {
    CountFields(d.root) == |d.inputs| + |d.outputs| + |d.features| &&
    AllOfKind(d.inputs, InputField) && AllOfKind(d.outputs, OutputField) && AllOfKind(d.features, FeatureField) &&
    Packed(d.inputs) && Packed(d.outputs) && Packed(d.features)
  }

  function ListOf(d: Descriptor, kind: FieldKind): seq<Field>
  {
    match kind
    case InputField => d.inputs
    case OutputField => d.outputs
    case FeatureField => d.features
  }

  /** The descriptor with fields fs added to the list of the given kind
      and to the collection at path; the other lists are untouched. */
  function Extend(d: Descriptor, path: seq<nat>, kind: FieldKind, fs: seq<Field>): (r: Descriptor)
    requires ValidPath(d.root, path)
    ensures ValidPath(r.root, path) && At(r.root, path).fields == At(d.root, path).fields + fs
    ensures ListOf(r, kind) == ListOf(d, kind) + fs
    ensures forall k | k != kind :: ListOf(r, k) == ListOf(d, k)
  {
    Descriptor(AppendAt(d.root, path, fs),
               if kind == InputField then d.inputs + fs else d.inputs,
               if kind == OutputField then d.outputs + fs else d.outputs,
               if kind == FeatureField then d.features + fs else d.features)
  }

  lemma ExtendTwice(d: Descriptor, path: seq<nat>, kind: FieldKind, a: seq<Field>, b: seq<Field>)
    requires ValidPath(d.root, path)
    ensures Extend(Extend(d, path, kind, a), path, kind, b) == Extend(d, path, kind, a + b)
  {
    AppendAtTwice(d.root, path, a, b);
    match kind {
      case InputField => assert d.inputs + a + b == d.inputs + (a + b);
      case OutputField => assert d.outputs + a + b == d.outputs + (a + b);
      case FeatureField => assert d.features + a + b == d.features + (a + b);
    }
  }

  lemma ExtendNothing(d: Descriptor, path: seq<nat>, kind: FieldKind)
    requires ValidPath(d.root, path)
    ensures Extend(d, path, kind, []) == d
  {
    AppendAtNothing(d.root, path);
    match kind {
      case InputField => assert d.inputs + [] == d.inputs;
      case OutputField => assert d.outputs + [] == d.outputs;
      case FeatureField => assert d.features + [] == d.features;
    }
  }

  /** A report's field list: all of one kind, back to back, and bits its
      total width in 32 bits. */
  ghost predicate ListOK(fs: seq<Field>, bits: u32, kind: FieldKind)
  {
    AllOfKind(fs, kind) && Packed(fs) && bits == SumBits(fs) % TWO_TO_32
  }

  lemma ListStep(fs: seq<Field>, bits: u32, f: Field, kind: FieldKind, fs': seq<Field>, bits': u32)
    requires ListOK(fs, bits, kind) && f.kind == kind && BitPos(f) == bits % 2048
    requires fs' == fs + [f] && bits' == Wrap32(bits + f.numBits)
    ensures ListOK(fs', bits', kind)
  {
    ModMod2048(SumBits(fs));
    PackedStep(fs, bits, f);
  }

  /** The bit totals of the three reports decoded so far. */
  datatype Tally = Tally(inputBits: u32, outputBits: u32, featureBits: u32)

  function BitsOf(t: Tally, kind: FieldKind): u32
  {
    match kind
    case InputField => t.inputBits
    case OutputField => t.outputBits
    case FeatureField => t.featureBits
  }

  /** The tally with the report of the given kind at bits; the other
      reports are untouched. */
  function WithBits(t: Tally, kind: FieldKind, bits: u32): (r: Tally)
    ensures BitsOf(r, kind) == bits
    ensures forall k | k != kind :: BitsOf(r, k) == BitsOf(t, k)
  {
    Tally(if kind == InputField then bits else t.inputBits,
          if kind == OutputField then bits else t.outputBits,
          if kind == FeatureField then bits else t.featureBits)
  }

  /** The parser's invariant: the current collection exists, the tree
      holds as many fields as the lists, and each list is well formed with
      its tally. */
  ghost predicate Coherent(d: Descriptor, t: Tally, current: Option<seq<nat>>)
  {
    (current.Some? ==> ValidPath(d.root, current.value)) &&
    CountFields(d.root) == |d.inputs| + |d.outputs| + |d.features| &&
    ListOK(d.inputs, t.inputBits, InputField) && ListOK(d.outputs, t.outputBits, OutputField) &&
    ListOK(d.features, t.featureBits, FeatureField)
  }

  lemma CoherentIsWellDecoded(d: Descriptor, t: Tally, current: Option<seq<nat>>)
    requires Coherent(d, t, current)
    ensures WellDecoded(d)
  {
  }

  /** Adding to one list fields that keep that list well formed keeps the
      whole parser state coherent. */
  lemma ExtendKeepsCoherent(d: Descriptor, t: Tally, path: seq<nat>, kind: FieldKind, fs: seq<Field>, bits: u32)
    requires Coherent(d, t, Some(path)) && ListOK(ListOf(d, kind) + fs, bits, kind)
    ensures Coherent(Extend(d, path, kind, fs), WithBits(t, kind, bits), Some(path))
  {
    CountAppendAt(d.root, path, fs);
    var r := Extend(d, path, kind, fs);
    assert r.root == AppendAt(d.root, path, fs);
  }

  /** The fields of a main item, appended to a well-formed list whose total
      they start from, leave it well formed with the run's total. */
  lemma {:induction false} RunExtendsList(fs: seq<Field>, bits: u32, kind: FieldKind, flags: u16, g: GlobalState,
                                          ls: LocalState, n: nat)
    requires ListOK(fs, bits, kind)
    ensures var run := FieldRun(kind, flags, g, ls, bits, n);
            ListOK(fs + run.fields, run.total, kind)
  {
    if n == 0 {
      assert fs + [] == fs;
    } else {
      RunExtendsList(fs, bits, kind, flags, g, ls, n - 1);
      RunStepExtendsList(fs, bits, kind, flags, g, ls, n - 1);
    }
  }

  lemma RunStepExtendsList(fs: seq<Field>, bits: u32, kind: FieldKind, flags: u16, g: GlobalState,
                           ls: LocalState, n: nat)
    requires var prev := FieldRun(kind, flags, g, ls, bits, n); ListOK(fs + prev.fields, prev.total, kind)
    ensures var run := FieldRun(kind, flags, g, ls, bits, n + 1); ListOK(fs + run.fields, run.total, kind)
  {
    var prev := FieldRun(kind, flags, g, ls, bits, n);
    var f := NextField(kind, flags, g, prev.local, prev.total).0;
    FieldRunStep(kind, flags, g, ls, bits, n, prev.fields, prev.local, prev.total);
    var run := FieldRun(kind, flags, g, ls, bits, n + 1);
    AppendOne(fs, prev.fields, f, run.fields);
    ListStep(fs + prev.fields, prev.total, f, kind, fs + run.fields, run.total);
  }

  lemma AppendOne<T>(a: seq<T>, b: seq<T>, x: T, c: seq<T>)
    requires c == b + [x]
    ensures a + c == (a + b) + [x]
  {
  }

  lemma {:induction false} PrefixValid(t: Collection, p: seq<nat>)
    requires p != [] && ValidPath(t, p)
    ensures ValidPath(t, Pop(p))
    decreases p
  {
    if |p| > 1 {
      PrefixValid(t.children[p[0]], p[1..]);
      assert Pop(p)[1..] == Pop(p[1..]);
    }
  }

  /* ---------------------------------------------------------------------
     One item at a time, on values
     --------------------------------------------------------------------- */

  /** Everything the parser keeps between items. */
  datatype State = State(d: Descriptor, t: Tally, current: Option<seq<nat>>,
                         globals: seq<GlobalState>, local: LocalState)

  /** What one item does: a failed check, or the new state and whether the
      item was accepted. */
  datatype Step = Fault | Done(s: State, ok: bool)

  /** The state of a fresh parser: one default global state, the root
      collection current, nothing decoded. */
  function Initial(): State
  {
    State(Descriptor(EmptyCollection(), [], [], []), Tally(0, 0, 0), Some([]), [DefaultGlobals()], EmptyLocal())
  }

  /** The cursor, when there is one, names a collection of the tree. */
  predicate Located(s: State)
  {
    s.current.Some? ==> ValidPath(s.d.root, s.current.value)
  }

  ghost predicate Consistent(s: State)
  {
    Coherent(s.d, s.t, s.current)
  }

  /** Declaring the fields of a main item stops on a failed check when there
      is no global state, or for an array field with no usage at all. */
  predicate FieldFault(s: State, data: u32)
  {
    s.globals == [] || (Last(s.globals).reportCount > 0 && IsArray(data % 0x1_0000) && s.local.usage == [])
  }

  /** The fields an Input, Output or Feature item declares in state s. */
  function RunFor(s: State, kind: FieldKind, data: u32): (r: Run)
    requires s.globals != []
    ensures |r.fields| == Last(s.globals).reportCount
  {
    FieldRun(kind, data % 0x1_0000, Last(s.globals), s.local, BitsOf(s.t, kind), Last(s.globals).reportCount)
  }

  /** An Input, Output or Feature item: report_count fields with the item's
      low 16 bits as flags, appended to the list of their kind and to the
      current collection. */
  function FieldsItem(s: State, kind: FieldKind, data: u32): (r: Step)
    requires s.current.Some? && ValidPath(s.d.root, s.current.value)
  {
    if FieldFault(s, data) then Fault
    else
      var run := RunFor(s, kind, data);
      Done(s.(d := Extend(s.d, s.current.value, kind, run.fields), t := WithBits(s.t, kind, run.total),
              local := run.local), true)
  }

  /** A field-declaring item fails exactly on the checks; otherwise it adds
      the run's fields to its own list and to the current collection, and no
      other list and no other report's total moves. */
  lemma FieldsItemEffects(s: State, kind: FieldKind, data: u32)
    requires s.current.Some? && ValidPath(s.d.root, s.current.value)
    ensures var r := FieldsItem(s, kind, data);
      (r.Fault? <==> FieldFault(s, data)) &&
      (r.Done? ==>
        r.ok && r.s.current == s.current && r.s.globals == s.globals &&
        ListOf(r.s.d, kind) == ListOf(s.d, kind) + RunFor(s, kind, data).fields &&
        BitsOf(r.s.t, kind) == RunFor(s, kind, data).total &&
        (forall k | k != kind :: ListOf(r.s.d, k) == ListOf(s.d, k) && BitsOf(r.s.t, k) == BitsOf(s.t, k)) &&
        ValidPath(r.s.d.root, s.current.value) &&
        At(r.s.d.root, s.current.value).fields == At(s.d.root, s.current.value).fields + RunFor(s, kind, data).fields)
  {
  }

  /** A main item. Collection opens a child of the current collection and
      makes it current; End Collection returns to the parent; any other tag
      is refused. The local state is cleared after every main item. */
  function MainItem(s: State, tag: nat, data: u32): (r: Step)
    requires s.current.Some? && ValidPath(s.d.root, s.current.value)
  {
    var p := s.current.value;
    var step :=
      if tag == INPUT then FieldsItem(s, InputField, data)
      else if tag == OUTPUT then FieldsItem(s, OutputField, data)
      else if tag == FEATURE then FieldsItem(s, FeatureField, data)
      else if tag == COLLECTION then
        var k := |At(s.d.root, p).children|;
        Done(s.(d := s.d.(root := AddChild(s.d.root, p, OpenedCollection(data, s.local))), current := Some(p + [k])), true)
      else if tag == END_COLLECTION then Done(s.(current := Parent(p)), true)
      else Done(s, false);
    if step.Fault? then Fault else Done(step.s.(local := EmptyLocal()), step.ok)
  }

  /** What a main item does to the parse state. */
  lemma MainItemEffects(s: State, tag: nat, data: u32)
    requires s.current.Some? && ValidPath(s.d.root, s.current.value)
    ensures var r := MainItem(s, tag, data);
      (r.Fault? <==> (tag == INPUT || tag == OUTPUT || tag == FEATURE) && FieldFault(s, data)) &&
      (r.Done? ==> r.s.local == EmptyLocal() && r.s.globals == s.globals) &&
      (r.Done? ==> (r.ok <==> INPUT <= tag <= END_COLLECTION)) &&
      (tag == COLLECTION ==>
        r.Done? && r.s.current.Some? && ValidPath(r.s.d.root, r.s.current.value) &&
        At(r.s.d.root, r.s.current.value) == OpenedCollection(data, s.local) &&
        Parent(r.s.current.value) == s.current && r.s.t == s.t &&
        r.s.d.inputs == s.d.inputs && r.s.d.outputs == s.d.outputs && r.s.d.features == s.d.features) &&
      (tag == END_COLLECTION ==> r.Done? && r.s.current == Parent(s.current.value) && r.s.d == s.d && r.s.t == s.t) &&
      (r.Done? && (tag < INPUT || tag > END_COLLECTION) ==> r.s.d == s.d && r.s.t == s.t && r.s.current == s.current)
  {
    if tag == INPUT {
      FieldsItemEffects(s, InputField, data);
    } else if tag == OUTPUT {
      FieldsItemEffects(s, OutputField, data);
    } else if tag == FEATURE {
      FieldsItemEffects(s, FeatureField, data);
    } else if tag == COLLECTION {
      CloseReturnsToOpener(s.d.root, s.current.value, OpenedCollection(data, s.local));
    }
  }

  /** One item, dispatched on its type; type 3 is refused. An item that
      arrives with no current collection stops on a failed check. */
  function ItemStep(s: State, item: Item): (r: Step)
    requires Located(s) && ItemSize(item.len) && item.data < ByteRange(item.len)
  {
    if s.current.None? then Fault
    else
      var tag := ItemTag(item.header);
      var kind := ItemType(item.header);
      if kind == MAIN then MainItem(s, tag, item.data)
      else if kind == GLOBAL then
        match GlobalItem(s.globals, tag, item.data, item.len)
        case GlobalFault => Fault
        case GlobalDone(stack, ok) => Done(s.(globals := stack), ok)
      else if kind == LOCAL then
        match LocalItem(s.local, s.globals, tag, item.data, item.len)
        case LocalFault => Fault
        case LocalDone(ls, ok) => Done(s.(local := ls), ok)
      else Done(s, false)
  }

  /** Only main items touch the decoded descriptor and the cursor, only
      global items the global stack; type 3 changes nothing and is refused,
      and any item fails with no current collection. */
  lemma ItemStepEffects(s: State, item: Item)
    requires Located(s) && ItemSize(item.len) && item.data < ByteRange(item.len)
    ensures var r := ItemStep(s, item);
      (s.current.None? ==> r.Fault?) &&
      (r.Done? && ItemType(item.header) != MAIN ==> r.s.d == s.d && r.s.t == s.t && r.s.current == s.current) &&
      (r.Done? && ItemType(item.header) != GLOBAL ==> r.s.globals == s.globals) &&
      (s.current.Some? && ItemType(item.header) == 3 ==> r == Done(s, false))
  {
    if s.current.Some? && ItemType(item.header) == MAIN {
      MainItemEffects(s, ItemTag(item.header), item.data);
    }
  }

  /** A field-declaring item that passes its checks, unfolded for the
      fields, local state and total its loop produced. */
  lemma FieldsItemDone(s: State, kind: FieldKind, data: u32, fields: seq<Field>, queues: LocalState, bits: u32)
    requires s.current.Some? && ValidPath(s.d.root, s.current.value) && !FieldFault(s, data)
    requires FieldRun(kind, data % 0x1_0000, Last(s.globals), s.local, BitsOf(s.t, kind), Last(s.globals).reportCount) ==
             Run(fields, queues, bits)
    ensures FieldsItem(s, kind, data) ==
              Done(State(Descriptor(AppendAt(s.d.root, s.current.value, fields),
                                    if kind == InputField then s.d.inputs + fields else s.d.inputs,
                                    if kind == OutputField then s.d.outputs + fields else s.d.outputs,
                                    if kind == FeatureField then s.d.features + fields else s.d.features),
                         Tally(if kind == InputField then bits else s.t.inputBits,
                               if kind == OutputField then bits else s.t.outputBits,
                               if kind == FeatureField then bits else s.t.featureBits),
                         s.current, s.globals, queues), true)
  {
  }

  /** The loop of a field-declaring item: report_count fields, each taking
      the next queued usage, designator and string and starting where the
      report's bit total stands. */
  method DeclareFields(kind: FieldKind, flags: u16, g: GlobalState, queues: LocalState, bits: u32)
    returns (fields: seq<Field>, queues': LocalState, bits': u32)
    ensures FieldRun(kind, flags, g, queues, bits, g.reportCount) == Run(fields, queues', bits')
  {
    fields, queues', bits' := [], queues, bits;
    var i: nat := 0;
    while i < g.reportCount
      invariant i <= g.reportCount
      invariant FieldRun(kind, flags, g, queues, bits, i) == Run(fields, queues', bits')
    {
      var next := NextField(kind, flags, g, queues', bits');
      FieldRunStep(kind, flags, g, queues, bits, i, fields, queues', bits');
      fields := fields + [next.0];
      bits' := Wrap32(bits' + next.0.numBits);
      queues' := next.1;
      i := i + 1;
    }
  }

  /** A field-declaring item keeps the parser state coherent. */
  lemma FieldsItemKeepsCoherent(s: State, kind: FieldKind, data: u32)
    requires Consistent(s) && s.current.Some?
    ensures var r := FieldsItem(s, kind, data); r.Done? ==> Consistent(r.s)
  {
    if !FieldFault(s, data) {
      var run := RunFor(s, kind, data);
      var g := Last(s.globals);
      assert ListOK(ListOf(s.d, kind), BitsOf(s.t, kind), kind) by {
        match kind {
          case InputField =>
          case OutputField =>
          case FeatureField =>
        }
      }
      RunExtendsList(ListOf(s.d, kind), BitsOf(s.t, kind), kind, data % 0x1_0000, g, s.local, g.reportCount);
      ExtendKeepsCoherent(s.d, s.t, s.current.value, kind, run.fields, run.total);
    }
  }

  /** Every main item keeps the parser state coherent. */
  lemma MainItemKeepsCoherent(s: State, tag: nat, data: u32)
    requires Consistent(s) && s.current.Some?
    ensures var r := MainItem(s, tag, data); r.Done? ==> Consistent(r.s)
  {
    var p := s.current.value;
    if tag == INPUT {
      FieldsItemKeepsCoherent(s, InputField, data);
    } else if tag == OUTPUT {
      FieldsItemKeepsCoherent(s, OutputField, data);
    } else if tag == FEATURE {
      FieldsItemKeepsCoherent(s, FeatureField, data);
    } else if tag == COLLECTION {
      var child := OpenedCollection(data, s.local);
      CountAddChild(s.d.root, p, child);
      assert ChildCounts(child) == [];
    } else if tag == END_COLLECTION && p != [] {
      PrefixValid(s.d.root, p);
    }
  }

  /** Every item keeps the parser state coherent. */
  lemma ItemStepKeepsCoherent(s: State, item: Item)
    requires Consistent(s) && ItemSize(item.len) && item.data < ByteRange(item.len)
    ensures var r := ItemStep(s, item); r.Done? ==> Consistent(r.s)
  {
    if s.current.Some? && ItemType(item.header) == MAIN {
      MainItemKeepsCoherent(s, ItemTag(item.header), item.data);
    }
  }

  /** Every item keeps the cursor on a collection of the tree. */
  lemma ItemStepLocated(s: State, item: Item)
    requires Located(s) && ItemSize(item.len) && item.data < ByteRange(item.len)
    ensures var r := ItemStep(s, item); r.Done? ==> Located(r.s)
  {
    ItemStepEffects(s, item);
    if s.current.Some? && ItemType(item.header) == MAIN {
      var tag, p := ItemTag(item.header), s.current.value;
      MainItemEffects(s, tag, item.data);
      if tag == INPUT {
        FieldsItemEffects(s, InputField, item.data);
      } else if tag == OUTPUT {
        FieldsItemEffects(s, OutputField, item.data);
      } else if tag == FEATURE {
        FieldsItemEffects(s, FeatureField, item.data);
      } else if tag == END_COLLECTION && p != [] {
        PrefixValid(s.d.root, p);
      }
    }
  }

  /** The parse from offset on, in state s with the result so far: items
      are decoded one after another until the end; a refused item makes the
      result false but parsing goes on, and a failed check or a long item
      (which the parser reports as incomplete code) stops it at that item. */
  function ParseFrom(raw: seq<byte>, offset: nat, s: State, result: bool): (r: ParseOutcome)
    requires Located(s)
    ensures r.Parsed? && r.ok ==> result
    decreases |raw| - offset
  {
    if offset >= |raw| then Parsed(result, s.d)
    else if raw[offset] == LONG_ITEM then Faulted(offset)
    else
      var item := ItemAt(raw, offset);
      ItemStepLocated(s, item);
      match ItemStep(s, item)
      case Fault => Faulted(offset)
      case Done(s', ok) => ParseFrom(raw, offset + 1 + item.len, s', result && ok)
  }

  /** One item of the parse, unfolded. */
  lemma ParseFromStep(raw: seq<byte>, offset: nat, s: State, result: bool, step: Step)
    requires Located(s) && offset < |raw| && raw[offset] != LONG_ITEM
    requires step == ItemStep(s, ItemAt(raw, offset))
    ensures step.Fault? ==> ParseFrom(raw, offset, s, result) == Faulted(offset)
    ensures step.Done? ==>
      Located(step.s) &&
      ParseFrom(raw, offset, s, result) == ParseFrom(raw, offset + 1 + ItemAt(raw, offset).len, step.s, result && step.ok)
  {
    ItemStepLocated(s, ItemAt(raw, offset));
  }

  /** The state after the item at offset, when it passes, with the parse
      from there on; the state stays coherent. */
  lemma CoherentStep(raw: seq<byte>, offset: nat, s: State, result: bool)
    returns (done: bool, s': State, result': bool, next: nat)
    requires Consistent(s) && offset < |raw| && raw[offset] != LONG_ITEM
    ensures !done ==> ParseFrom(raw, offset, s, result) == Faulted(offset)
    ensures done ==> Consistent(s') && next > offset && ParseFrom(raw, offset, s, result) == ParseFrom(raw, next, s', result')
  {
    var item := ItemAt(raw, offset);
    var step := ItemStep(s, item);
    ParseFromStep(raw, offset, s, result, step);
    ItemStepKeepsCoherent(s, item);
    done := step.Done?;
    next := offset + 1 + item.len;
    if done {
      s', result' := step.s, result && step.ok;
    } else {
      s', result' := s, result;
    }
  }

  /** A parse that runs to the end yields a well-decoded descriptor. */
  lemma {:induction false} ParseFromWellDecoded(raw: seq<byte>, offset: nat, s: State, result: bool)
    requires Consistent(s)
    ensures var r := ParseFrom(raw, offset, s, result); r.Parsed? ==> WellDecoded(r.descriptor)
    decreases |raw| - offset
  {
    if offset >= |raw| {
      assert ParseFrom(raw, offset, s, result) == Parsed(result, s.d);
      CoherentIsWellDecoded(s.d, s.t, s.current);
    } else if raw[offset] != LONG_ITEM {
      var done, s', result', next := CoherentStep(raw, offset, s, result);
      if done {
        ParseFromWellDecoded(raw, next, s', result');
        SameOutcome(ParseFrom(raw, offset, s, result), ParseFrom(raw, next, s', result'));
      }
    }
  }

  lemma SameOutcome(a: ParseOutcome, b: ParseOutcome)
    requires a == b && (b.Parsed? ==> WellDecoded(b.descriptor))
    ensures a.Parsed? ==> WellDecoded(a.descriptor)
  {
  }

  /** A parse that stops on a failed check or a long item stops at the
      start of an item. */
  lemma {:induction false} ParseFromStopsAtItem(raw: seq<byte>, offset: nat, s: State, result: bool)
    requires Located(s)
    ensures var r := ParseFrom(raw, offset, s, result); r.Faulted? ==> r.offset in ItemStarts(raw, offset)
    decreases |raw| - offset
  {
    if offset < |raw| && raw[offset] != LONG_ITEM {
      var step := ItemStep(s, ItemAt(raw, offset));
      ParseFromStep(raw, offset, s, result, step);
      if step.Done? {
        ParseFromStopsAtItem(raw, offset + 1 + ItemAt(raw, offset).len, step.s, result && step.ok);
      }
    }
  }

  /** The whole descriptor parsed from a fresh parser. */
  function Parse(raw: seq<byte>): (r: ParseOutcome)
    ensures r.Parsed? ==> WellDecoded(r.descriptor)
    ensures r.Faulted? ==> r.offset in ItemStarts(raw, 0)
    ensures |raw| == 0 ==> r == Parsed(true, Descriptor(EmptyCollection(), [], [], []))
    ensures |raw| > 0 && raw[0] == LONG_ITEM ==> r == Faulted(0)
  {
    assert ChildCounts(EmptyCollection()) == [];
    ParseFromWellDecoded(raw, 0, Initial(), true);
    ParseFromStopsAtItem(raw, 0, Initial(), true);
    ParseFrom(raw, 0, Initial(), true)
  }

  /** Push as written forgets the usage page in force: after Usage Page 1
      and Push, a one-byte Usage 0x30 is recorded as 0x30 instead of
      0x10030. */
  lemma PushForgetsUsagePage()
    ensures var g := DefaultGlobals().(usagePage := 1);
            var asWritten := GlobalItemAsWritten([g], PUSH, 0, 0).stack;
            var intended := GlobalItem([g], PUSH, 0, 0).stack;
            LocalItem(EmptyLocal(), asWritten, USAGE, 0x30, 1).local.usage == [LocalField(0x30, 0, 0, false)] &&
            LocalItem(EmptyLocal(), intended, USAGE, 0x30, 1).local.usage == [LocalField(0x1_0030, 0, 0, false)]
  {
    var g := DefaultGlobals().(usagePage := 1);
    assert Last(GlobalItemAsWritten([g], PUSH, 0, 0).stack) == DefaultGlobals();
    assert Last(GlobalItem([g], PUSH, 0, 0).stack) == g;
  }

  /* ---------------------------------------------------------------------
     The parser as it runs: the parse state is a record passed by reference
     from item to item, so each handler takes the state and returns the new
     one
     --------------------------------------------------------------------- */

  /** An Input, Output or Feature item: the checks, then the field loop,
      then the fields go to the list of their kind and to the current
      collection. */
  method AddNewField(s: State, kind: FieldKind, data: u32) returns (r: Step)
    requires s.current.Some? && ValidPath(s.d.root, s.current.value)
    ensures r == FieldsItem(s, kind, data)
  {
    if s.globals == [] {
      return Fault;
    }
    var g := Last(s.globals);
    var flags := data % 0x1_0000;
    if g.reportCount > 0 && IsArray(flags) && s.local.usage == [] {
      return Fault;
    }
    var fields, queues, bits := DeclareFields(kind, flags, g, s.local, BitsOf(s.t, kind));
    FieldsItemDone(s, kind, data, fields, queues, bits);
    var d := s.d.(root := AppendAt(s.d.root, s.current.value, fields));
    var t := s.t;
    match kind {
      case InputField => d, t := d.(inputs := d.inputs + fields), t.(inputBits := bits);
      case OutputField => d, t := d.(outputs := d.outputs + fields), t.(outputBits := bits);
      case FeatureField => d, t := d.(features := d.features + fields), t.(featureBits := bits);
    }
    r := Done(s.(d := d, t := t, local := queues), true);
  }

  /** A main item; the local state is cleared after it unless a check
      failed. */
  method HandleMainItem(s: State, tag: nat, data: u32) returns (r: Step)
    requires s.current.Some? && ValidPath(s.d.root, s.current.value)
    ensures r == MainItem(s, tag, data)
  {
    var p := s.current.value;
    if tag == INPUT {
      r := AddNewField(s, InputField, data);
    } else if tag == OUTPUT {
      r := AddNewField(s, OutputField, data);
    } else if tag == FEATURE {
      r := AddNewField(s, FeatureField, data);
    } else if tag == COLLECTION {
      var k := |At(s.d.root, p).children|;
      var root := AddChild(s.d.root, p, OpenedCollection(data, s.local));
      r := Done(s.(d := s.d.(root := root), current := Some(p + [k])), true);
    } else if tag == END_COLLECTION {
      r := Done(s.(current := Parent(p)), true);
    } else {
      r := Done(s, false);
    }
    if r.Done? {
      r := r.(s := r.s.(local := EmptyLocal()));
    }
  }

  /** One item, dispatched on its type. */
  method HandleItem(s: State, item: Item) returns (r: Step)
    requires Located(s) && ItemSize(item.len) && item.data < ByteRange(item.len)
    ensures r == ItemStep(s, item)
  {
    if s.current.None? {
      return Fault;
    }
    var kind := ItemType(item.header);
    var tag := ItemTag(item.header);
    if kind == MAIN {
      r := HandleMainItem(s, tag, item.data);
    } else if kind == GLOBAL {
      match GlobalItem(s.globals, tag, item.data, item.len)
      case GlobalFault =>
        r := Fault;
      case GlobalDone(stack, ok) =>
        r := Done(s.(globals := stack), ok);
    } else if kind == LOCAL {
      match LocalItem(s.local, s.globals, tag, item.data, item.len)
      case LocalFault =>
        r := Fault;
      case LocalDone(ls, ok) =>
        r := Done(s.(local := ls), ok);
    } else {
      r := Done(s, false);
    }
  }

  /** Parses a report descriptor item by item, carrying one parse state. */
  method ParseDescriptor(raw: seq<byte>) returns (outcome: ParseOutcome)
    ensures outcome == Parse(raw)
  {
    var parser := Initial();
    var result := true;
    var offset: nat := 0;
    while offset < |raw|
      invariant Located(parser)
      invariant ParseFrom(raw, offset, parser, result) == Parse(raw)
      decreases |raw| - offset
    {
      if raw[offset] == LONG_ITEM {
        return Faulted(offset);
      }
      var item := ItemAt(raw, offset);
      var step := HandleItem(parser, item);
      ParseFromStep(raw, offset, parser, result, step);
      if step.Fault? {
        return Faulted(offset);
      }
      parser := step.s;
      result := result && step.ok;
      offset := offset + 1 + item.len;
    }
    outcome := Parsed(result, parser.d);
  }
}
