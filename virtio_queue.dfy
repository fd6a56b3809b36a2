/** A virtio split virtqueue as the driver sees it
    (kernel/devices/virtio/virtio_queue.cpp): the descriptor table, the
    available ring and its index, and the driver's cursor into the used
    ring. The used ring and its index are written by the device and are
    parameters of the model; physical addresses of buffers are given with
    the buffers. */
module VirtioQueue {
  import opened Common

  // Descriptor flags.
  const NEXT: bv16 := 1
  const WRITE: bv16 := 2

  /** An entry of the descriptor table. A zero physical address marks a
      free entry. */
  datatype Desc = Desc(physAddr: u64, length: u32, flags: bv16, next: u16)

  /** A buffer handed to send_buffers: its virtual address, its physical
      address, its length and whether the device may write it. */
  datatype Buffer = Buffer(address: nat, physAddr: u64, length: u32, deviceWritable: bool)

  /** An element of the used ring, written by the device. */
  datatype UsedElem = UsedElem(index: u32, lengthWritten: u32)

  /** A buffer given back to the owning device with the bytes written into it. */
  datatype Release = Release(address: nat, bytes: nat)

  function ZeroDesc(): Desc
  {
    Desc(0, 0, 0, 0)
  }

  predicate HasNext(f: bv16)
  {
    f & NEXT != 0
  }

  predicate HasWrite(f: bv16)
  {
    f & WRITE != 0
  }

  /** The flag word of a descriptor send_buffers writes: WRITE for a
      buffer the device may write, with NEXT or-ed in when another
      descriptor follows. */
  function ChainFlags(writable: bool, chained: bool): (f: bv16)
    ensures HasNext(f) == chained && HasWrite(f) == writable
  {
    (if writable then WRITE else 0) | (if chained then NEXT else 0)
  }

  /* ---------------------------------------------------------------------
     Choosing descriptor slots
     --------------------------------------------------------------------- */

  /** The first want free entries of the table at or after from, in order. */
  function FreeSlots(table: seq<Desc>, from: nat, want: nat): (r: seq<nat>)
    ensures |r| <= want
    ensures forall k | 0 <= k < |r| :: from <= r[k] < |table| && table[r[k]].physAddr == 0
    decreases |table| - from
  {
    if want == 0 || from >= |table| then []
    else if table[from].physAddr == 0 then [from] + FreeSlots(table, from + 1, want - 1)
    else FreeSlots(table, from + 1, want)
  }

  /** Each element below the next. */
  predicate Ascending(s: seq<nat>)
    decreases |s|
  {
    |s| <= 1 || (s[0] < s[1] && Ascending(s[1..]))
  }

  lemma {:induction false} AscendingPair(s: seq<nat>, k: nat, l: nat)
    requires Ascending(s) && k < l < |s|
    ensures s[k] < s[l]
    decreases |s|
  {
    if k == 0 {
      if l > 1 {
        AscendingPair(s[1..], 0, l - 1);
      }
    } else {
      AscendingPair(s[1..], k - 1, l - 1);
    }
  }

  /** The free slots are found in increasing order, so no slot is chosen
      twice. */
  lemma {:induction false} FreeSlotsIncrease(table: seq<Desc>, from: nat, want: nat)
    ensures Ascending(FreeSlots(table, from, want))
    decreases |table| - from
  {
    if want != 0 && from < |table| {
      if table[from].physAddr == 0 {
        FreeSlotsIncrease(table, from + 1, want - 1);
        var r := FreeSlots(table, from, want);
        assert r[1..] == FreeSlots(table, from + 1, want - 1);
      } else {
        FreeSlotsIncrease(table, from + 1, want);
      }
    }
  }

  /** The number of free entries at or after from. */
  function CountFree(table: seq<Desc>, from: nat): nat
    decreases |table| - from
  {
    if from >= |table| then 0
    else (if table[from].physAddr == 0 then 1 else 0) + CountFree(table, from + 1)
  }

  /** The search comes up short exactly when there are fewer free entries
      than wanted. */
  lemma {:induction false} FreeSlotsCount(table: seq<Desc>, from: nat, want: nat)
    ensures |FreeSlots(table, from, want)| == Min(want, CountFree(table, from))
    decreases |table| - from
  {
    if want != 0 && from < |table| {
      if table[from].physAddr == 0 {
        FreeSlotsCount(table, from + 1, want - 1);
      } else {
        FreeSlotsCount(table, from + 1, want);
      }
    }
  }

  /** Distinct entries of a table are fewer than its size. */
  lemma {:induction false} FreeSlotsFit(table: seq<Desc>, from: nat, want: nat)
    requires from <= |table|
    ensures from + |FreeSlots(table, from, want)| <= |table|
    decreases |table| - from
  {
    if want != 0 && from < |table| {
      if table[from].physAddr == 0 {
        FreeSlotsFit(table, from + 1, want - 1);
      } else {
        FreeSlotsFit(table, from + 1, want);
      }
    }
  }

  /** The descriptor send_buffers writes for the j-th buffer: its address,
      length and direction, chained to the next chosen slot unless it is
      the last. */
  function DescFor(bufs: seq<Buffer>, slots: seq<nat>, j: nat): Desc
    requires |slots| == |bufs| && j < |bufs|
    requires forall k | 0 <= k < |slots| :: slots[k] < 0x1_0000
  {
    var last := j == |bufs| - 1;
    Desc(bufs[j].physAddr, bufs[j].length, ChainFlags(bufs[j].deviceWritable, !last),
         if last then 0 else slots[j + 1])
  }

  /** table is before with the chosen slots filled in for bufs and nothing
      else changed. */
  ghost predicate Filled(table: seq<Desc>, before: seq<Desc>, bufs: seq<Buffer>, slots: seq<nat>)
  {
    |table| == |before| && |slots| == |bufs| &&
    (forall k | 0 <= k < |slots| :: slots[k] < |table| && slots[k] < 0x1_0000) &&
    (forall j | 0 <= j < |slots| :: table[slots[j]] == DescFor(bufs, slots, j)) &&
    (forall k | 0 <= k < |table| && k !in slots :: table[k] == before[k])
  }

  /** addrs is before with each chosen slot holding its buffer's virtual
      address and nothing else changed. */
  ghost predicate Recorded(addrs: seq<nat>, before: seq<nat>, bufs: seq<Buffer>, slots: seq<nat>)
  {
    |addrs| == |before| && |slots| == |bufs| &&
    (forall j | 0 <= j < |slots| :: slots[j] < |addrs| && addrs[slots[j]] == bufs[j].address) &&
    (forall k | 0 <= k < |addrs| && k !in slots :: addrs[k] == before[k])
  }

  /** The table and the addresses after send_buffers has placed bufs: the
      lowest free slots of the table before are filled and chained in
      order and hold the buffers' virtual addresses. */
  ghost predicate Enqueued(table: seq<Desc>, before: seq<Desc>, addrs: seq<nat>, addrsBefore: seq<nat>, bufs: seq<Buffer>)
  {
    var slots := FreeSlots(before, 0, |bufs|);
    |slots| == |bufs| && Filled(table, before, bufs, slots) && Recorded(addrs, addrsBefore, bufs, slots)
  }

  /* ---------------------------------------------------------------------
     Retiring a chain from the used ring
     --------------------------------------------------------------------- */

  /** A retired chain: the slots visited and the bytes credited to each. */
  datatype Retired = Retired(chain: seq<nat>, credits: seq<nat>)

  /** The walk of process_used_ring over one chain from index: a writable
      buffer is credited with what is left of the bytes written, up to its
      length; a read-only one with nothing; NEXT leads on. A slot outside
      the table, or a chain longer than fuel links, gives None. */
  function RetireChain(table: seq<Desc>, index: nat, left: nat, fuel: nat): (r: Option<Retired>)
    ensures r.Some? ==> |r.value.chain| == |r.value.credits| &&
                        forall k | 0 <= k < |r.value.chain| :: r.value.chain[k] < |table|
    decreases fuel
  {
    if index >= |table| || fuel == 0 then None
    else
      var d := table[index];
      var c := if HasWrite(d.flags) then Min(d.length, left) else 0;
      if !HasNext(d.flags) then Some(Retired([index], [c]))
      else
        match RetireChain(table, d.next, left - c, fuel - 1)
        case None => None
        case Some(rest) => Some(Retired([index] + rest.chain, [c] + rest.credits))
  }

  function Total(s: seq<nat>): nat
  {
    if s == [] then 0 else s[0] + Total(s[1..])
  }

  /** The combined length of the writable buffers of a chain. */
  function WritableTotal(table: seq<Desc>, chain: seq<nat>): nat
    requires forall k | 0 <= k < |chain| :: chain[k] < |table|
  {
    if chain == [] then 0
    else (if HasWrite(table[chain[0]].flags) then table[chain[0]].length else 0) + WritableTotal(table, chain[1..])
  }

  /** The bytes credited to a chain are the bytes the device wrote, cut
      down to what its writable buffers hold: never more than written. */
  lemma {:induction false} RetiredBytes(table: seq<Desc>, index: nat, left: nat, fuel: nat)
    ensures var r := RetireChain(table, index, left, fuel);
            r.Some? ==> Total(r.value.credits) == Min(left, WritableTotal(table, r.value.chain))
    decreases fuel
  {
    var r := RetireChain(table, index, left, fuel);
    if r.Some? {
      var d := table[index];
      var c := if HasWrite(d.flags) then Min(d.length, left) else 0;
      if HasNext(d.flags) {
        var rest := RetireChain(table, d.next, left - c, fuel - 1).value;
        RetiredBytes(table, d.next, left - c, fuel - 1);
        assert r.value.chain[1..] == rest.chain;
        assert r.value.credits[1..] == rest.credits;
      } else {
        assert r.value.chain[1..] == [];
        assert r.value.credits[1..] == [];
      }
    }
  }

  /** The chain send_buffers writes is walked back exactly by the used-ring
      processing: starting at its head, the walk visits the chosen slots in
      order. */
  lemma {:induction false} SentChainRetires(table: seq<Desc>, bufs: seq<Buffer>, slots: seq<nat>, j: nat,
                                            left: nat, fuel: nat)
    requires |slots| == |bufs| && j < |slots| && |slots| - j <= fuel
    requires forall k | 0 <= k < |slots| :: slots[k] < |table| && slots[k] < 0x1_0000
    requires forall k | 0 <= k < |slots| :: table[slots[k]] == DescFor(bufs, slots, k)
    ensures RetireChain(table, slots[j], left, fuel).Some?
    ensures RetireChain(table, slots[j], left, fuel).value.chain == slots[j..]
    decreases |slots| - j
  {
    var d := table[slots[j]];
    assert d == DescFor(bufs, slots, j);
    if j < |slots| - 1 {
      var c := if HasWrite(d.flags) then Min(d.length, left) else 0;
      SentChainRetires(table, bufs, slots, j + 1, left - c, fuel - 1);
      assert slots[j..] == [slots[j]] + slots[j + 1..];
    } else {
      assert slots[j..] == [slots[j]];
    }
  }

  /** A table and the buffers given back so far. */
  datatype Drained = Drained(table: seq<Desc>, releases: seq<Release>)

  /** The table with the physical address of each slot of chain cleared,
      in chain order; a slot outside the table is passed over. */
  function Cleared(table: seq<Desc>, chain: seq<nat>): (r: seq<Desc>)
    ensures |r| == |table|
    decreases |chain|
  {
    if chain == [] then table
    else
      var i := chain[0];
      Cleared(if i < |table| then table[i := table[i].(physAddr := 0)] else table, chain[1..])
  }

  /** The buffers given back for a retired chain, in chain order, each with
      the bytes credited to its slot. */
  function Releases(addrs: seq<nat>, r: Retired): (rs: seq<Release>)
    requires |r.chain| == |r.credits|
    ensures |rs| == |r.chain|
    decreases |r.chain|
  {
    if r.chain == [] then []
    else
      [Release(if r.chain[0] < |addrs| then addrs[r.chain[0]] else 0, r.credits[0])] +
      Releases(addrs, Retired(r.chain[1..], r.credits[1..]))
  }

  /** The inner loop of process_used_ring as it runs on the table itself:
      each descriptor passed is given back to the owner with its share of
      the bytes written (after the releases in acc) and has its physical
      address cleared, and the link is then read from the table. None
      where the walk leaves the table or passes fuel descriptors. */
  function RetireFrom(table: seq<Desc>, addrs: seq<nat>, index: nat, left: nat, fuel: nat, acc: seq<Release>): (r: Option<Drained>)
    requires |addrs| == |table|
    ensures r.Some? ==> |r.value.table| == |table|
    decreases fuel
  {
    if index >= |table| || fuel == 0 then None
    else
      var d := table[index];
      var c := if HasWrite(d.flags) then Min(d.length, left) else 0;
      var t := table[index := d.(physAddr := 0)];
      var acc' := acc + [Release(addrs[index], c)];
      if !HasNext(d.flags) then Some(Drained(t, acc'))
      else RetireFrom(t, addrs, d.next, left - c, fuel - 1, acc')
  }

  /** Two tables with the same lengths, flags and links. */
  ghost predicate SameLinks(t1: seq<Desc>, t2: seq<Desc>)
  {
    |t1| == |t2| &&
    forall k | 0 <= k < |t1| :: t1[k].length == t2[k].length && t1[k].flags == t2[k].flags && t1[k].next == t2[k].next
  }

  /** The walk of a chain reads only lengths, flags and links. */
  lemma {:induction false} RetireChainLinks(t1: seq<Desc>, t2: seq<Desc>, index: nat, left: nat, fuel: nat)
    requires SameLinks(t1, t2)
    ensures RetireChain(t1, index, left, fuel) == RetireChain(t2, index, left, fuel)
    decreases fuel
  {
    if index < |t1| && fuel > 0 {
      var d := t1[index];
      var c := if HasWrite(d.flags) then Min(d.length, left) else 0;
      RetireChainLinks(t1, t2, d.next, left - c, fuel - 1);
    }
  }

  /** The table and the releases that retiring the chain r amounts to. */
  function Retirement(table: seq<Desc>, addrs: seq<nat>, acc: seq<Release>, r: Option<Retired>): Option<Drained>
    requires r.Some? ==> |r.value.chain| == |r.value.credits|
  {
    match r
    case None => None
    case Some(x) => Some(Drained(Cleared(table, x.chain), acc + Releases(addrs, x)))
  }

  /** Clearing physical addresses as the walk goes does not change where it
      goes: the walk on the live table retires exactly the chain of the
      table it started from, leaves that chain's slots cleared and gives
      back its buffers in chain order after the earlier releases. */
  lemma {:induction false} RetireFromIsChain(table: seq<Desc>, addrs: seq<nat>, index: nat, left: nat, fuel: nat, acc: seq<Release>)
    requires |addrs| == |table|
    ensures RetireFrom(table, addrs, index, left, fuel, acc) == Retirement(table, addrs, acc, RetireChain(table, index, left, fuel))
    decreases fuel
  {
    if index < |table| && fuel > 0 {
      var d := table[index];
      var c := if HasWrite(d.flags) then Min(d.length, left) else 0;
      if HasNext(d.flags) {
        var t := table[index := d.(physAddr := 0)];
        RetireFromIsChain(t, addrs, d.next, left - c, fuel - 1, acc + [Release(addrs[index], c)]);
        RetireChainLinks(t, table, d.next, left - c, fuel - 1);
        RetireLink(table, addrs, index, left, fuel, acc, c);
      } else {
        RetireLast(table, addrs, index, left, fuel, acc, c);
      }
    }
  }

  /** The walk at a descriptor without NEXT. */
  lemma RetireLast(table: seq<Desc>, addrs: seq<nat>, index: nat, left: nat, fuel: nat, acc: seq<Release>, c: nat)
    requires |addrs| == |table| && index < |table| && fuel > 0 && !HasNext(table[index].flags)
    requires c == if HasWrite(table[index].flags) then Min(table[index].length, left) else 0
    ensures RetireFrom(table, addrs, index, left, fuel, acc) == Retirement(table, addrs, acc, RetireChain(table, index, left, fuel))
  {
    assert [index][1..] == [] && [c][1..] == [];
    assert Cleared(table, [index]) == table[index := table[index].(physAddr := 0)];
    assert Releases(addrs, Retired([index], [c])) == [Release(addrs[index], c)];
  }

  /** The walk at a descriptor with NEXT, given the rest of the walk. */
  lemma RetireLink(table: seq<Desc>, addrs: seq<nat>, index: nat, left: nat, fuel: nat, acc: seq<Release>, c: nat)
    requires |addrs| == |table| && index < |table| && fuel > 0 && HasNext(table[index].flags)
    requires c == if HasWrite(table[index].flags) then Min(table[index].length, left) else 0
    requires var t := table[index := table[index].(physAddr := 0)];
             var acc' := acc + [Release(addrs[index], c)];
             RetireFrom(t, addrs, table[index].next, left - c, fuel - 1, acc') ==
             Retirement(t, addrs, acc', RetireChain(table, table[index].next, left - c, fuel - 1))
    ensures RetireFrom(table, addrs, index, left, fuel, acc) == Retirement(table, addrs, acc, RetireChain(table, index, left, fuel))
  {
    var rest := RetireChain(table, table[index].next, left - c, fuel - 1);
    if rest.Some? {
      RetireCons(table, addrs, index, c, rest.value);
      assert (acc + [Release(addrs[index], c)]) + Releases(addrs, rest.value)
             == acc + ([Release(addrs[index], c)] + Releases(addrs, rest.value));
    }
  }

  /** One slot in front of a retired chain: it is cleared first and given
      back first. */
  lemma RetireCons(table: seq<Desc>, addrs: seq<nat>, index: nat, c: nat, rest: Retired)
    requires index < |table| && |rest.chain| == |rest.credits|
    ensures Cleared(table, [index] + rest.chain) == Cleared(table[index := table[index].(physAddr := 0)], rest.chain)
    ensures Releases(addrs, Retired([index] + rest.chain, [c] + rest.credits))
            == [Release(if index < |addrs| then addrs[index] else 0, c)] + Releases(addrs, rest)
  {
    assert ([index] + rest.chain)[1..] == rest.chain;
    assert ([c] + rest.credits)[1..] == rest.credits;
  }

  /** The j-th buffer given back is the one in the j-th slot of the chain. */
  lemma {:induction false} ReleasesAt(addrs: seq<nat>, r: Retired, j: nat)
    requires |r.chain| == |r.credits| && j < |r.chain|
    ensures Releases(addrs, r)[j] == Release(if r.chain[j] < |addrs| then addrs[r.chain[j]] else 0, r.credits[j])
    decreases j
  {
    if j > 0 {
      ReleasesAt(addrs, Retired(r.chain[1..], r.credits[1..]), j - 1);
    }
  }

  /** Round trip: when the device hands back the head of a chain that
      send_buffers placed, the walk retires exactly the chosen slots and
      gives the buffers back in the order they were sent, crediting no more
      than the device wrote. */
  lemma SendThenRetire(table: seq<Desc>, before: seq<Desc>, addrs: seq<nat>, addrsBefore: seq<nat>,
                       bufs: seq<Buffer>, written: nat)
    requires Enqueued(table, before, addrs, addrsBefore, bufs) && |bufs| > 0
    ensures var slots := FreeSlots(before, 0, |bufs|);
            var r := RetireChain(table, slots[0], written, |table|);
            r.Some? && r.value.chain == slots &&
            Total(r.value.credits) <= written &&
            |Releases(addrs, r.value)| == |bufs| &&
            forall j | 0 <= j < |bufs| :: Releases(addrs, r.value)[j].address == bufs[j].address
  {
    var slots := FreeSlots(before, 0, |bufs|);
    FreeSlotsFit(before, 0, |bufs|);
    SentChainRetires(table, bufs, slots, 0, written, |table|);
    assert slots[0..] == slots;
    var r := RetireChain(table, slots[0], written, |table|).value;
    RetiredBytes(table, slots[0], written, |table|);
    forall j | 0 <= j < |bufs|
      ensures Releases(addrs, r)[j].address == bufs[j].address
    {
      ReleasesAt(addrs, r, j);
    }
  }

  /** How many used-ring elements lie between the driver's cursor and the
      device's index, counting modulo 2^16. */
  function Pending(last: u16, usedIdx: u16): nat
  {
    (usedIdx - last) % 0x1_0000
  }

  lemma PendingStep(last: u16, usedIdx: u16)
    requires last != usedIdx
    ensures Pending((last + 1) % 0x1_0000, usedIdx) == Pending(last, usedIdx) - 1
  {
    var p := Pending(last, usedIdx);
    assert p != 0;
    if last == 0xFFFF {
      assert (last + 1) % 0x1_0000 == 0;
    }
  }

  /** The table and the buffers given back, in order, after processing the
      used-ring elements from last up to the device's index usedIdx,
      following the releases in acc; None where the walk of a chain leaves
      the table or does not end. */
  function ProcessFrom(table: seq<Desc>, addrs: seq<nat>, ring: seq<UsedElem>, last: u16, usedIdx: u16,
                       acc: seq<Release>): Option<Drained>
    requires |ring| > 0 && |addrs| == |table|
    decreases Pending(last, usedIdx)
  {
    if last == usedIdx then Some(Drained(table, acc))
    else
      var e := ring[last % |ring|];
      match RetireFrom(table, addrs, e.index % 0x1_0000, e.lengthWritten, |table|, acc)
      case None => None
      case Some(d) =>
        PendingStep(last, usedIdx);
        ProcessFrom(d.table, addrs, ring, (last + 1) % 0x1_0000, usedIdx, d.releases)
  }

  /** Processing leaves every descriptor's length, flags and link alone and
      only ever clears physical addresses. */
  ghost predicate OnlyCleared(after: seq<Desc>, before: seq<Desc>)
  {
    |after| == |before| &&
    forall k | 0 <= k < |after| :: after[k] == before[k] || after[k] == before[k].(physAddr := 0)
  }

  /** Processing only frees descriptors, and only adds to the releases
      already made. */
  lemma {:induction false} ProcessOnlyClears(table: seq<Desc>, addrs: seq<nat>, ring: seq<UsedElem>, last: u16, usedIdx: u16,
                                             acc: seq<Release>)
    requires |ring| > 0 && |addrs| == |table|
    ensures var p := ProcessFrom(table, addrs, ring, last, usedIdx, acc);
            p.Some? ==> OnlyCleared(p.value.table, table) && acc <= p.value.releases
    decreases Pending(last, usedIdx)
  {
    var p := ProcessFrom(table, addrs, ring, last, usedIdx, acc);
    if last != usedIdx && p.Some? {
      var e := ring[last % |ring|];
      var index, left := e.index % 0x1_0000, e.lengthWritten;
      RetireFromIsChain(table, addrs, index, left, |table|, acc);
      var r := RetireChain(table, index, left, |table|).value;
      var t' := Cleared(table, r.chain);
      PendingStep(last, usedIdx);
      ProcessOnlyClears(t', addrs, ring, (last + 1) % 0x1_0000, usedIdx, acc + Releases(addrs, r));
      ClearedOnlyClears(table, r.chain);
      OnlyClearedTrans(p.value.table, t', table);
    }
  }

  lemma {:induction false} ClearedOnlyClears(table: seq<Desc>, chain: seq<nat>)
    ensures OnlyCleared(Cleared(table, chain), table)
    decreases |chain|
  {
    if chain != [] {
      var i := chain[0];
      var t := if i < |table| then table[i := table[i].(physAddr := 0)] else table;
      ClearedOnlyClears(t, chain[1..]);
      OnlyClearedTrans(Cleared(table, chain), t, table);
    }
  }

  lemma OnlyClearedTrans(a: seq<Desc>, b: seq<Desc>, c: seq<Desc>)
    requires OnlyCleared(a, b) && OnlyCleared(b, c)
    ensures OnlyCleared(a, c)
  {
    forall k | 0 <= k < |a|
      ensures a[k] == c[k] || a[k] == c[k].(physAddr := 0)
    {
      assert a[k] == b[k] || a[k] == b[k].(physAddr := 0);
      assert b[k] == c[k] || b[k] == c[k].(physAddr := 0);
    }
  }

  /** A free descriptor stays free. */
  lemma {:induction false} ClearedKeepsFree(table: seq<Desc>, chain: seq<nat>, j: nat)
    requires j < |table| && table[j].physAddr == 0
    ensures Cleared(table, chain)[j].physAddr == 0
    decreases |chain|
  {
    if chain != [] {
      var i := chain[0];
      ClearedKeepsFree(if i < |table| then table[i := table[i].(physAddr := 0)] else table, chain[1..], j);
    }
  }

  /** Every slot of a retired chain ends up free. */
  lemma {:induction false} ClearedFrees(table: seq<Desc>, chain: seq<nat>, k: nat)
    requires forall i | 0 <= i < |chain| :: chain[i] < |table|
    requires 0 <= k < |chain|
    ensures Cleared(table, chain)[chain[k]].physAddr == 0
    decreases |chain|
  {
    var i := chain[0];
    var t := table[i := table[i].(physAddr := 0)];
    if k == 0 {
      ClearedKeepsFree(t, chain[1..], i);
    } else {
      ClearedFrees(t, chain[1..], k - 1);
    }
  }

  /* ---------------------------------------------------------------------
     The loops over the descriptor table
     --------------------------------------------------------------------- */

  /** The search of send_buffers for free descriptors: the lowest want free
      slots, fewer if the table runs out. */
  method FindFreeSlots(table: array<Desc>, want: nat) returns (slots: seq<nat>)
    ensures slots == FreeSlots(table[..], 0, want)
  {
    slots := [];
    var i := 0;
    while i < table.Length && |slots| < want
      invariant 0 <= i <= table.Length && |slots| <= want
      invariant FreeSlots(table[..], 0, want) == slots + FreeSlots(table[..], i, want - |slots|)
    {
      if table[i].physAddr == 0 {
        slots := slots + [i];
      }
      i := i + 1;
    }
  }

  /** The table after the first j buffers have been written to their
      slots. */
  function Fill(table: seq<Desc>, bufs: seq<Buffer>, slots: seq<nat>, j: nat): (r: seq<Desc>)
    requires |slots| == |bufs| && j <= |slots|
    requires forall k | 0 <= k < |slots| :: slots[k] < |table| && slots[k] < 0x1_0000
    ensures |r| == |table|
    decreases j
  {
    if j == 0 then table else Fill(table, bufs, slots, j - 1)[slots[j - 1] := DescFor(bufs, slots, j - 1)]
  }

  /** The addresses after the first j buffers have been recorded. */
  function Record(addrs: seq<nat>, bufs: seq<Buffer>, slots: seq<nat>, j: nat): (r: seq<nat>)
    requires |slots| == |bufs| && j <= |slots|
    requires forall k | 0 <= k < |slots| :: slots[k] < |addrs|
    ensures |r| == |addrs|
    decreases j
  {
    if j == 0 then addrs else Record(addrs, bufs, slots, j - 1)[slots[j - 1] := bufs[j - 1].address]
  }

  /** With the slots all different, writing them one after the other
      leaves each with its own buffer and every other entry as it was. */
  lemma {:induction false} FillWrites(table: seq<Desc>, addrs: seq<nat>, bufs: seq<Buffer>, slots: seq<nat>, j: nat)
    requires |slots| == |bufs| && j <= |slots| && |addrs| == |table|
    requires forall k | 0 <= k < |slots| :: slots[k] < |table| && slots[k] < 0x1_0000
    requires Ascending(slots)
    ensures forall k | 0 <= k < j :: Fill(table, bufs, slots, j)[slots[k]] == DescFor(bufs, slots, k)
    ensures forall k | 0 <= k < j :: Record(addrs, bufs, slots, j)[slots[k]] == bufs[k].address
    ensures forall i | 0 <= i < |table| && i !in slots[..j] :: Fill(table, bufs, slots, j)[i] == table[i]
    ensures forall i | 0 <= i < |addrs| && i !in slots[..j] :: Record(addrs, bufs, slots, j)[i] == addrs[i]
    decreases j
  {
    if j > 0 {
      FillWrites(table, addrs, bufs, slots, j - 1);
      assert slots[..j] == slots[..j - 1] + [slots[j - 1]];
      forall k | 0 <= k < j - 1
        ensures slots[k] < slots[j - 1]
      {
        AscendingPair(slots, k, j - 1);
      }
    }
  }

  /** The filling loop of send_buffers: each chosen slot gets its buffer's
      descriptor, chained to the next, and its buffer's virtual address. */
  method FillSlots(table: array<Desc>, addrs: array<nat>, bufs: seq<Buffer>, slots: seq<nat>)
    requires |slots| == |bufs| && table.Length == addrs.Length
    requires forall k | 0 <= k < |slots| :: slots[k] < table.Length && slots[k] < 0x1_0000
    requires Ascending(slots)
    modifies table, addrs
    ensures Filled(table[..], old(table[..]), bufs, slots)
    ensures Recorded(addrs[..], old(addrs[..]), bufs, slots)
  {
    ghost var t0, a0 := table[..], addrs[..];
    var n := |bufs|;
    var j := 0;
    while j < n
      invariant 0 <= j <= n
      invariant table[..] == Fill(t0, bufs, slots, j)
      invariant addrs[..] == Record(a0, bufs, slots, j)
    {
      var s := slots[j];
      var chained := j < n - 1;
      table[s] := Desc(bufs[j].physAddr, bufs[j].length, ChainFlags(bufs[j].deviceWritable, chained),
                       if chained then slots[j + 1] else 0);
      addrs[s] := bufs[j].address;
      j := j + 1;
    }
    FillWrites(t0, a0, bufs, slots, n);
    assert slots[..n] == slots;
  }

  /** The table work of send_buffers for a non-empty list of buffers:
      with fewer free descriptors than buffers nothing changes; otherwise
      the lowest free slots are filled in order and chained. */
  method EnqueueChain(table: array<Desc>, addrs: array<nat>, bufs: seq<Buffer>) returns (slots: seq<nat>, ok: bool)
    requires table.Length == addrs.Length <= 0x1_0000 && |bufs| > 0
    modifies table, addrs
    ensures ok <==> CountFree(old(table[..]), 0) >= |bufs|
    ensures !ok ==> unchanged(table) && unchanged(addrs)
    ensures ok ==> slots == FreeSlots(old(table[..]), 0, |bufs|) &&
                   Enqueued(table[..], old(table[..]), addrs[..], old(addrs[..]), bufs)
  {
    slots := FindFreeSlots(table, |bufs|);
    FreeSlotsCount(table[..], 0, |bufs|);
    FreeSlotsIncrease(table[..], 0, |bufs|);
    if |slots| < |bufs| {
      return slots, false;
    }
    FillSlots(table, addrs, bufs, slots);
    ok := true;
  }

  /** The inner loop of process_used_ring over one used-ring element: walk
      the chain, giving each buffer back with its share of the bytes
      written and freeing its descriptor; released is acc followed by the
      buffers given back. !ok: the walk left the table or did not end. */
  method RetireElement(table: array<Desc>, addrs: array<nat>, e: UsedElem, acc: seq<Release>)
    returns (released: seq<Release>, ok: bool)
    requires table.Length == addrs.Length
    modifies table
    ensures RetireFrom(old(table[..]), addrs[..], e.index % 0x1_0000, e.lengthWritten, table.Length, acc)
            == if ok then Some(Drained(table[..], released)) else None
  {
    ghost var a := addrs[..];
    var n := table.Length;
    var index: nat := e.index % 0x1_0000;
    var left: nat := e.lengthWritten;
    var fuel: nat := n;
    var more := true;
    released := acc;
    ghost var whole := RetireFrom(table[..], a, index, left, fuel, released);
    while more
      invariant more ==> whole == RetireFrom(table[..], a, index, left, fuel, released)
      invariant !more ==> whole == Some(Drained(table[..], released))
      decreases fuel, more
    {
      if index >= n || fuel == 0 {
        return released, false;
      }
      var d := table[index];
      var c := if HasWrite(d.flags) then Min(d.length, left) else 0;
      var left', fuel' := left - c, fuel - 1;
      ghost var t := table[..][index := d.(physAddr := 0)];
      released := released + [Release(addrs[index], c)];
      table[index] := d.(physAddr := 0);
      assert table[..] == t;
      left, fuel := left', fuel';
      if !HasNext(d.flags) {
        more := false;
      } else {
        index := d.next;
      }
    }
    ok := true;
  }

  /* ---------------------------------------------------------------------
     The queue
     --------------------------------------------------------------------- */

  class VirtQueue {
    const queueNumber: u16
    const queueSize: nat
    /** The descriptor table. */
    const table: array<Desc>
    /** The available ring's entries. */
    const availRing: array<u16>
    /** The virtual address of the buffer behind each descriptor. */
    const bufferAddresses: array<nat>
    /** The available ring's index, shared with the device. */
    var availIdx: u16
    /** The next used-ring element the driver will look at. */
    var lastUsedIdx: u16

    predicate Valid()
      reads this
    {
      0 < queueSize < 0x1_0000 &&
      table.Length == queueSize && availRing.Length == queueSize && bufferAddresses.Length == queueSize
    }

    /** The constructor: a zeroed descriptor table and available ring of
        size entries. */
    constructor (size: u16, number: u16)
      requires size > 0
      ensures Valid() && queueSize == size && queueNumber == number
      ensures table[..] == seq(size, _ => ZeroDesc()) && availRing[..] == seq(size, _ => 0)
      ensures availIdx == 0 && lastUsedIdx == 0
      ensures fresh(table) && fresh(availRing) && fresh(bufferAddresses)
    {
      queueNumber := number;
      queueSize := size;
      table := new Desc[size](_ => ZeroDesc());
      availRing := new u16[size](_ => 0);
      bufferAddresses := new nat[size](_ => 0);
      availIdx := 0;
      lastUsedIdx := 0;
    }

    /** send_buffers: no buffers, or fewer free descriptors than buffers,
        is refused and changes nothing. Otherwise the lowest free slots are
        filled in order and chained, the head goes into the available ring
        at the index modulo the queue size, the index goes up by one (modulo
        2^16) and the device is notified of it. */
    method SendBuffers(bufs: seq<Buffer>) returns (result: bool, notified: Option<u16>)
      requires Valid()
      modifies this, table, availRing, bufferAddresses
      ensures Valid() && unchanged(this`lastUsedIdx)
      ensures result <==> |bufs| > 0 && CountFree(old(table[..]), 0) >= |bufs|
      ensures !result ==> unchanged(this) && unchanged(table) && unchanged(availRing) && unchanged(bufferAddresses)
      ensures !result ==> notified.None?
      ensures result ==>
        Enqueued(table[..], old(table[..]), bufferAddresses[..], old(bufferAddresses[..]), bufs) &&
        availRing[..] == old(availRing[..])[old(availIdx) % queueSize := FreeSlots(old(table[..]), 0, |bufs|)[0]] &&
        availIdx == (old(availIdx) + 1) % 0x1_0000 &&
        notified == Some(availIdx)
    {
      result, notified := false, None;
      if |bufs| == 0 {
        return;
      }
      var idx := availIdx;
      ghost var ring := availRing[..];
      var slots, ok := EnqueueChain(table, bufferAddresses, bufs);
      if !ok {
        return;
      }
      assert availRing[..] == ring;
      ghost var filled, recorded := table[..], bufferAddresses[..];
      var next := (idx + 1) % 0x1_0000;
      availRing[idx % queueSize] := slots[0];
      assert table[..] == filled && bufferAddresses[..] == recorded;
      availIdx := next;
      result, notified := true, Some(next);
    }

    /** process_used_ring: retires each element the device has put on the
        used ring since the last call, giving each buffer of its chain back
        with the bytes written into it and freeing its descriptor. stuck:
        a chain left the table or did not end, where the driver would read
        outside its memory or loop for ever. */
    method ProcessUsedRing(usedRing: seq<UsedElem>, usedIdx: u16) returns (releases: seq<Release>, stuck: bool)
      requires Valid() && |usedRing| == queueSize
      modifies this`lastUsedIdx, table
      ensures Valid()
      ensures var p := ProcessFrom(old(table[..]), bufferAddresses[..], usedRing, old(lastUsedIdx), usedIdx, []);
              if stuck then p.None? else p == Some(Drained(table[..], releases))
      ensures !stuck ==> lastUsedIdx == usedIdx
    {
      ghost var a := bufferAddresses[..];
      releases, stuck := [], false;
      ghost var whole := ProcessFrom(table[..], a, usedRing, lastUsedIdx, usedIdx, releases);
      while lastUsedIdx != usedIdx
        invariant Valid() && a == bufferAddresses[..]
        invariant whole == ProcessFrom(table[..], a, usedRing, lastUsedIdx, usedIdx, releases)
        decreases Pending(lastUsedIdx, usedIdx)
      {
        var e := usedRing[lastUsedIdx % |usedRing|];
        var next := (lastUsedIdx + 1) % 0x1_0000;
        PendingStep(lastUsedIdx, usedIdx);
        var ok;
        releases, ok := RetireElement(table, bufferAddresses, e, releases);
        if !ok {
          stuck := true;
          return;
        }
        lastUsedIdx := next;
      }
    }
  }

  /* ---------------------------------------------------------------------
     The used ring as written
     --------------------------------------------------------------------- */

  /** The used-ring element process_used_ring reads as written in a queue
      of queueSize elements: the cursor itself, not reduced modulo the queue
      size as the available ring's index is. It is inside the ring exactly
      while the cursor has not reached the queue size. */
  function UsedSlotAsWritten(last: u16, queueSize: nat): (slot: nat)
    ensures queueSize > 0 ==> (slot < queueSize <==> last < queueSize)
    ensures queueSize > 0 && last < queueSize ==> slot == UsedSlot(last, queueSize)
  {
    last
  }

  /** The element the model reads instead. */
  function UsedSlot(last: u16, queueSize: nat): nat
    requires queueSize > 0
  {
    last % queueSize
  }

  /** Once queueSize elements have been used, the cursor as written points
      past the end of the used ring, while the reduced one stays inside. */
  lemma UsedCursorOverruns(last: u16, queueSize: nat)
    requires 0 < queueSize <= last
    ensures UsedSlotAsWritten(last, queueSize) >= queueSize
    ensures UsedSlot(last, queueSize) < queueSize
  {
  }
}
