/** xHCI rings (usb_xhci_trb_ring.cpp): the software side of the transfer
    and command rings, which it fills, and of the event ring, which the
    controller fills and it drains. */
module XhciTrbRing {
  import opened Common

  // TRB types, from section 6.4.6 of the xHCI specification.
  const NORMAL: nat := 1
  const SETUP_STAGE: nat := 2
  const DATA_STAGE: nat := 3
  const STATUS_STAGE: nat := 4
  const ISOCH: nat := 5
  const LINK: nat := 6
  const EVENT_DATA: nat := 7
  const NO_OP: nat := 8
  const ENABLE_SLOT_CMD: nat := 9
  const NO_OP_CMD: nat := 23

  /** The size of a TRB in bytes. */
  const TRB_SIZE: nat := 16

  /** A TRB: its parameter and status words, and of its control word the
      cycle bit (bit 0), the interrupt-on-completion bit (bit 5), the type
      (bits 10 to 15) and the value of all the other bits together. */
  datatype Trb = Trb(data: u64, status: u32, cycle: bool, ioc: bool, trbType: nat, flags: nat)

  /** A TRB cleared to zero. */
  function ZeroTrb(): Trb
  {
    Trb(0, 0, false, false, 0, 0)
  }

  /** The link TRB at the end of each ring, pointing back at its start,
      with every flag clear. */
  function LinkTrb(target: u64): Trb
  {
    Trb(target, 0, false, false, LINK, 0)
  }

  datatype RingKind = TransferRing | CommandRing

  /** is_valid_trb of each ring: the transfer and command TRB types of the
      xHCI specification; the link type is on neither list, so no caller
      can break the ring. */
  predicate IsValidTrb(kind: RingKind, t: Trb)
  {
    match kind
    case TransferRing => 1 <= t.trbType <= 8 && t.trbType != LINK
    case CommandRing => ENABLE_SLOT_CMD <= t.trbType <= NO_OP_CMD
  }

  lemma LinkNeverQueued(kind: RingKind, t: Trb)
    requires IsValidTrb(kind, t)
    ensures t.trbType != LINK
  {
  }

  // ---------------------------------------------------------------------------
  // The producer side.

  /** A transfer or command ring: its TRBs, the enqueue index and the
      producer cycle state. */
  datatype Ring = Ring(slots: seq<Trb>, enqueue: nat, cycleBit: bool)

  /** The ring's shape: one link TRB, in the last slot, and the enqueue
      index on one of the others. */
  ghost predicate WellFormed(r: Ring)
  {
    && |r.slots| >= 2 && r.enqueue < |r.slots| - 1
    && r.slots[|r.slots| - 1].trbType == LINK
    && forall i | 0 <= i < |r.slots| - 1 :: r.slots[i].trbType != LINK
  }

  /** queue_trb: a missing or invalid TRB, or a slot whose cycle bit is
      set, is refused; otherwise the TRB is stored with the producer cycle
      state at the enqueue index, which moves on, back to the start with
      the cycle state toggled when it reaches the link TRB. The position
      of the stored TRB is returned. */
  function Queue(kind: RingKind, r: Ring, t: Option<Trb>): (res: (bool, nat, Ring))
    requires WellFormed(r)
    ensures WellFormed(res.2)
  {
    if t.None? || !IsValidTrb(kind, t.value) || r.slots[r.enqueue].cycle then (false, 0, r)
    else
      var slots := r.slots[r.enqueue := t.value.(cycle := r.cycleBit)];
      if slots[r.enqueue + 1].trbType == LINK then (true, r.enqueue, Ring(slots, 0, !r.cycleBit))
      else (true, r.enqueue, Ring(slots, r.enqueue + 1, r.cycleBit))
  }

  /** Queueing succeeds exactly for a valid TRB and a slot whose cycle bit
      is clear; it then stores the TRB, with the producer cycle state, at
      the enqueue index, changes no other slot and moves on one slot,
      wrapping to the start and toggling the cycle state from the slot
      before the link TRB. A refused TRB changes nothing. */
  lemma QueueMeaning(kind: RingKind, r: Ring, t: Option<Trb>)
    requires WellFormed(r)
    ensures
      var (ok, pos, r') := Queue(kind, r, t);
      && (ok <==> t.Some? && IsValidTrb(kind, t.value) && !r.slots[r.enqueue].cycle)
      && (!ok ==> r' == r)
      && (ok ==>
            && pos == r.enqueue && |r'.slots| == |r.slots|
            && r'.slots[pos] == t.value.(cycle := r.cycleBit)
            && (forall i | 0 <= i < |r.slots| && i != pos :: r'.slots[i] == r.slots[i])
            && (if r.enqueue + 2 == |r.slots| then r'.enqueue == 0 && r'.cycleBit == !r.cycleBit
                else r'.enqueue == r.enqueue + 1 && r'.cycleBit == r.cycleBit))
  {
  }

  /** The ring before it first wraps: the slots below the enqueue index
      hold TRBs with the cycle bit set, the others still have it clear. */
  ghost predicate FirstLap(r: Ring)
    requires WellFormed(r)
  {
    && r.cycleBit
    && (forall i | 0 <= i < r.enqueue :: r.slots[i].cycle)
    && (forall i | r.enqueue <= i < |r.slots| - 1 :: !r.slots[i].cycle)
  }

  /** The ring once it has wrapped: every slot but the link TRB still
      holds the cycle bit set during the first lap, and nothing in the
      ring's code clears it. */
  ghost predicate Lapped(r: Ring)
    requires WellFormed(r)
  {
    !r.cycleBit && forall i | 0 <= i < |r.slots| - 1 :: r.slots[i].cycle
  }

  /** A new ring is on its first lap; queueing keeps it on its first lap
      or moves it to the wrapped state, and in the wrapped state every
      TRB is refused as if the ring were full. The ring therefore accepts
      one TRB fewer than it has slots over its whole life. */
  lemma {:induction false} QueueLaps(kind: RingKind, r: Ring, t: Option<Trb>)
    requires WellFormed(r) && (FirstLap(r) || Lapped(r))
    ensures FirstLap(Queue(kind, r, t).2) || Lapped(Queue(kind, r, t).2)
    ensures Lapped(r) ==> !Queue(kind, r, t).0
  {
    var (ok, pos, r') := Queue(kind, r, t);
    if ok {
      assert FirstLap(r);
      if r.enqueue + 2 == |r.slots| {
        assert Lapped(r');
      } else {
        assert FirstLap(r');
      }
    }
  }

  /** Queue each TRB in turn, ignoring whether it was accepted. */
  function QueueAll(kind: RingKind, r: Ring, ts: seq<Trb>): (r': Ring)
    requires WellFormed(r)
    ensures WellFormed(r')
    decreases |ts|
  {
    if ts == [] then r else QueueAll(kind, Queue(kind, r, Some(ts[0])).2, ts[1..])
  }

  lemma QueueAllStep(kind: RingKind, r: Ring, ts: seq<Trb>, t: Trb)
    requires WellFormed(r)
    ensures QueueAll(kind, r, ts + [t]) == Queue(kind, QueueAll(kind, r, ts), Some(t)).2
    decreases |ts|
  {
    if ts != [] {
      assert (ts + [t])[1..] == ts[1..] + [t];
      QueueAllStep(kind, Queue(kind, r, Some(ts[0])).2, ts[1..], t);
    }
  }

  /** A TRB with interrupt-on-completion cleared, as queue_ctrl_transfer
      does to the setup and data stage TRBs. */
  function NoInterrupt(t: Trb): Trb
  {
    t.(ioc := false)
  }

  /** The data stage TRBs queue_ctrl_transfer queues: none without a
      buffer. */
  function DataTrbs(data: Option<seq<Trb>>, num: nat): seq<Trb>
    requires data.Some? ==> num <= |data.value|
  {
    if data.Some? then data.value[..num] else []
  }

  function NoInterrupts(ts: seq<Trb>): (r: seq<Trb>)
    ensures |r| == |ts| && forall i | 0 <= i < |ts| :: r[i] == NoInterrupt(ts[i])
  {
    seq(|ts|, i requires 0 <= i < |ts| => NoInterrupt(ts[i]))
  }

  /** The normal TRB queue_regular_transfer builds: the buffer's physical
      address, the length with a TD size of 1 (bit 17), and the interrupt-
      on-short-packet (bit 2) and interrupt-on-completion flags. */
  function NormalTrb(bufferPhys: u64, length: nat): Trb
    requires length < 0x2_0000
  {
    Trb(bufferPhys, length + 0x2_0000, false, true, NORMAL, 4)
  }

  /** The physical address of the TRB at position pos, in uint64_t. */
  function TrbAddress(base: u64, pos: nat): u64
  {
    Wrap64(base + TRB_SIZE * pos)
  }

  /** convert_phys_to_position as written: the distance from the base in
      uint64_t, divided by 16 and truncated to uint32_t, is refused only
      when it is greater than the segment size. */
  function PositionAsWritten(base: u64, size: nat, phys: u64): (p: u32)
    ensures p != UINT32_MAX ==> p <= size
    ensures size < UINT32_MAX && Position(base, size, phys).Some? ==> p == Position(base, size, phys).value
  {
    var posn := Wrap64(phys - base) / TRB_SIZE % 0x1_0000_0000;
    if posn > size then UINT32_MAX else posn
  }

  /** The address just past the last TRB converts to the segment size,
      one past the last command queue; an address 2^36 bytes past the
      base converts to position 0. */
  lemma PositionAsWrittenMisplaces(base: u64, size: nat)
    requires size < UINT32_MAX && base + 0x10_0000_0000 < TWO_TO_64
    ensures PositionAsWritten(base, size, base + TRB_SIZE * size) == size
    ensures PositionAsWritten(base, size, base + 0x10_0000_0000) == 0
  {
  }

  /** convert_phys_to_position, corrected: the position of the TRB at
      phys, when phys lies within the segment. */
  function Position(base: u64, size: nat, phys: u64): (p: Option<nat>)
    ensures p.Some? <==> base <= phys < base + TRB_SIZE * size
    ensures p.Some? ==> p.value < size
  {
    if base <= phys && (phys - base) / TRB_SIZE < size then Some((phys - base) / TRB_SIZE) else None
  }

  /** The address of each position converts back to that position. */
  lemma PositionOfAddress(base: u64, size: nat, pos: nat)
    requires pos < size && base + TRB_SIZE * size < TWO_TO_64
    ensures Position(base, size, TrbAddress(base, pos)) == Some(pos)
  {
  }

  /** A command, with the TRB that carries it to the controller. */
  datatype Command = Command(id: nat, trb: Trb)

  /** trb_generic_ring with its two kinds, trb_transfer_ring and
      trb_command_ring; a command ring also keeps, per position, the
      commands queued there and not yet retrieved. */
  class TrbRing {
    const kind: RingKind
    const slots: array<Trb>
    /** trb_ring_base_phys. */
    const basePhys: u64
    var enqueue: nat
    var cycleBit: bool
    var commandQueues: seq<seq<Command>>

    ghost function State(): Ring
      reads this, slots
    {
      Ring(slots[..], enqueue, cycleBit)
    }

    ghost predicate Valid()
      reads this, slots
    {
      WellFormed(State()) && slots.Length < 0x1_0000 && |commandQueues| == slots.Length
    }

    /** A ring of maxEntries TRBs, cleared, and a link TRB at the end that
        points back at the first. */
    constructor (maxEntries: nat, ringKind: RingKind, phys: u64)
      requires 1 < maxEntries < 0x1_0000
      ensures Valid() && FirstLap(State()) && kind == ringKind && basePhys == phys
      ensures slots.Length == maxEntries && enqueue == 0 && cycleBit
      ensures forall i | 0 <= i < maxEntries - 1 :: slots[i] == ZeroTrb()
      ensures slots[maxEntries - 1] == LinkTrb(phys)
      ensures forall i | 0 <= i < maxEntries :: commandQueues[i] == []
    {
      kind := ringKind;
      basePhys := phys;
      slots := new Trb[maxEntries](i => if i == maxEntries - 1 then LinkTrb(phys) else ZeroTrb());
      enqueue := 0;
      cycleBit := true;
      commandQueues := seq(maxEntries, i => []);
      new;
      forall i | 0 <= i < maxEntries
        ensures slots[..][i] == if i == maxEntries - 1 then LinkTrb(phys) else ZeroTrb()
      {
        assert slots[..][i] == slots[i];
      }
    }

    /** queue_trb. */
    method QueueTrb(newTrb: Option<Trb>) returns (ok: bool, position: nat)
      requires Valid()
      modifies this, slots
      ensures Valid() && commandQueues == old(commandQueues)
      ensures (ok, position, State()) == Queue(kind, old(State()), newTrb)
    {
      if newTrb.None? || !IsValidTrb(kind, newTrb.value) || slots[enqueue].cycle {
        return false, 0;
      }
      slots[enqueue] := newTrb.value.(cycle := cycleBit);
      position := enqueue;
      enqueue := enqueue + 1;
      if slots[enqueue].trbType == LINK {
        enqueue := 0;
        cycleBit := !cycleBit;
      }
      ok := true;
    }

    /** queue_ctrl_transfer: after the parameter checks, the setup TRB, the
        data TRBs and the status TRB are queued in turn, the first two
        kinds with interrupt-on-completion cleared; the result is the
        status TRB's, with its physical address. */
    method QueueCtrlTransfer(setup: Option<Trb>, data: Option<seq<Trb>>, status: Option<Trb>, numDataTrbs: nat)
      returns (ok: bool, trbPhys: u64)
      requires Valid() && kind == TransferRing && numDataTrbs < 0x1_0000_0000
      requires data.Some? ==> numDataTrbs <= |data.value|
      modifies this, slots
      ensures Valid() && commandQueues == old(commandQueues)
      ensures
        var refused := (data.Some? && numDataTrbs == 0) || (data.None? && numDataTrbs != 0)
                       || setup.None? || status.None? || numDataTrbs > (slots.Length - 3) % 0x1_0000_0000;
        if refused then !ok && State() == old(State())
        else
          var first := QueueAll(kind, old(State()), [NoInterrupt(setup.value)] + NoInterrupts(DataTrbs(data, numDataTrbs)));
          var (okStatus, pos, r') := Queue(kind, first, status);
          && ok == okStatus && State() == r'
          && (ok ==> trbPhys == TrbAddress(basePhys, pos))
    {
      if (data.Some? && numDataTrbs == 0) || (data.None? && numDataTrbs != 0) || setup.None? || status.None?
         || numDataTrbs > (slots.Length - 3) % 0x1_0000_0000 {
        return false, 0;
      }
      ghost var queued := [NoInterrupt(setup.value)];
      var ignored;
      ok, ignored := QueueTrb(Some(NoInterrupt(setup.value)));
      assert State() == QueueAll(kind, old(State()), queued);
      var i := 0;
      while i < numDataTrbs
        invariant Valid() && commandQueues == old(commandQueues) && i <= numDataTrbs
        invariant queued == [NoInterrupt(setup.value)] + NoInterrupts(DataTrbs(data, i))
        invariant State() == QueueAll(kind, old(State()), queued)
      {
        QueueAllStep(kind, old(State()), queued, NoInterrupt(data.value[i]));
        ok, ignored := QueueTrb(Some(NoInterrupt(data.value[i])));
        assert DataTrbs(data, i + 1) == DataTrbs(data, i) + [data.value[i]];
        assert NoInterrupts(DataTrbs(data, i + 1)) == NoInterrupts(DataTrbs(data, i)) + [NoInterrupt(data.value[i])];
        queued := queued + [NoInterrupt(data.value[i])];
        i := i + 1;
      }
      var pos;
      ok, pos := QueueTrb(status);
      trbPhys := TrbAddress(basePhys, pos);
    }

    /** queue_regular_transfer: one normal TRB for a transfer shorter than
        2^17 bytes. */
    method QueueRegularTransfer(bufferPhys: u64, length: u32) returns (ok: bool, trbPhys: u64)
      requires Valid() && kind == TransferRing
      modifies this, slots
      ensures Valid() && commandQueues == old(commandQueues)
      ensures length >= 0x2_0000 ==> !ok && State() == old(State())
      ensures length < 0x2_0000 ==>
        var (okQueue, pos, r') := Queue(kind, old(State()), Some(NormalTrb(bufferPhys, length)));
        ok == okQueue && State() == r' && (ok ==> trbPhys == TrbAddress(basePhys, pos))
    {
      if length >= 0x2_0000 {
        return false, 0;
      }
      var pos;
      ok, pos := QueueTrb(Some(NormalTrb(bufferPhys, length)));
      trbPhys := TrbAddress(basePhys, pos);
    }

    /** queue_command: the command's TRB is queued and, when accepted, the
        command joins the queue of its position. */
    method QueueCommand(command: Command) returns (ok: bool)
      requires Valid() && kind == CommandRing
      modifies this, slots
      ensures Valid()
      ensures
        var (okQueue, pos, r') := Queue(kind, old(State()), Some(command.trb));
        && ok == okQueue && State() == r'
        && commandQueues == if ok then old(commandQueues)[pos := old(commandQueues)[pos] + [command]]
                            else old(commandQueues)
    {
      var pos;
      ok, pos := QueueTrb(Some(command.trb));
      if ok {
        commandQueues := commandQueues[pos := commandQueues[pos] + [command]];
      }
    }

    /** retrieve_command, with the position conversion corrected: the
        oldest command queued at the position of the TRB the completion
        event names, removed from its queue. */
    method RetrieveCommand(commandTrbPhys: u64) returns (command: Option<Command>)
      requires Valid()
      modifies this
      ensures Valid() && State() == old(State())
      ensures
        var p := Position(basePhys, slots.Length, commandTrbPhys);
        if p.Some? && old(commandQueues)[p.value] != [] then
          && command == Some(old(commandQueues)[p.value][0])
          && commandQueues == old(commandQueues)[p.value := old(commandQueues)[p.value][1..]]
        else command.None? && commandQueues == old(commandQueues)
    {
      var p := Position(basePhys, slots.Length, commandTrbPhys);
      if p.Some? && commandQueues[p.value] != [] {
        command := Some(commandQueues[p.value][0]);
        commandQueues := commandQueues[p.value := commandQueues[p.value][1..]];
      } else {
        command := None;
      }
    }
  }

  // ---------------------------------------------------------------------------
  // The event ring: the controller writes, the software reads.

  /** The consumer's view of an event ring: its TRBs, the dequeue index and
      the consumer cycle state. */
  datatype EventRing = EventRing(slots: seq<Trb>, dequeue: nat, ccs: bool)

  /** dequeue_trb on the ring's values: the TRB at the dequeue index when
      its cycle bit equals the consumer cycle state, with the index moved
      on, back to the start with the state toggled after the last slot. */
  function Dequeue(e: EventRing): (r: Option<(Trb, EventRing)>)
    requires e.dequeue < |e.slots|
    ensures r.Some? ==> r.value.1.dequeue < |r.value.1.slots| == |e.slots| && r.value.1.slots == e.slots
  {
    if e.slots[e.dequeue].cycle != e.ccs then None
    else if e.dequeue + 1 == |e.slots| then Some((e.slots[e.dequeue], EventRing(e.slots, 0, !e.ccs)))
    else Some((e.slots[e.dequeue], EventRing(e.slots, e.dequeue + 1, e.ccs)))
  }

  /** The ring with nothing to read: the slots the consumer has passed on
      this lap carry its cycle state, the slots ahead of it the other. */
  ghost predicate CaughtUp(e: EventRing)
  {
    && e.dequeue < |e.slots|
    && (forall i | 0 <= i < e.dequeue :: e.slots[i].cycle == e.ccs)
    && (forall i | e.dequeue <= i < |e.slots| :: e.slots[i].cycle != e.ccs)
  }

  /** The cycle bit the controller writes into the slot i places after
      position d on a ring of n slots, while its producer cycle state
      started as c at d. */
  function LapCycle(n: nat, d: nat, i: nat, c: bool): bool
  {
    if d + i < n then c else !c
  }

  /** The slot j places after position d on a ring of n slots (j <= n). */
  function Slot(n: nat, d: nat, j: nat): (q: nat)
    requires d < n && j <= n
    ensures q < n
  {
    if d + j < n then d + j else d + j - n
  }

  /** How many places slot q lies after position d on a ring of n slots. */
  function Ahead(n: nat, d: nat, q: nat): nat
    requires q < n && d < n
  {
    if q >= d then q - d else q + n - d
  }

  /** The controller writing the events in order from the dequeue index of
      a caught-up ring, wrapping after the last slot and toggling its cycle
      state there (at most one lap). */
  function Produce(e: EventRing, events: seq<Trb>): (r: EventRing)
    requires e.dequeue < |e.slots| && |events| <= |e.slots|
    ensures |r.slots| == |e.slots| && r.dequeue == e.dequeue && r.ccs == e.ccs
  {
    var n := |e.slots|;
    EventRing(seq(n, q requires 0 <= q < n =>
                var i := Ahead(n, e.dequeue, q);
                if i < |events| then events[i].(cycle := LapCycle(n, e.dequeue, i, e.ccs)) else e.slots[q]),
              e.dequeue, e.ccs)
  }

  /** Dequeue k times, collecting the TRBs; None if one fails. */
  function DequeueN(e: EventRing, k: nat): (r: Option<(seq<Trb>, EventRing)>)
    requires e.dequeue < |e.slots|
    ensures r.Some? ==> |r.value.0| == k && r.value.1.dequeue < |r.value.1.slots| == |e.slots|
    decreases k
  {
    if k == 0 then Some(([], e))
    else match Dequeue(e)
      case None => None
      case Some((t, e')) =>
        match DequeueN(e', k - 1)
        case None => None
        case Some((ts, e'')) => Some(([t] + ts, e''))
  }

  /** The ring j events into reading what the controller produced. */
  function Reading(p: EventRing, d: nat, c: bool, j: nat): EventRing
    requires d < |p.slots| && j <= |p.slots|
  {
    EventRing(p.slots, Slot(|p.slots|, d, j), LapCycle(|p.slots|, d, j, c))
  }

  /** TRBs with the cycle bit left out: what the controller meant to say. */
  function Stripped(ts: seq<Trb>): (r: seq<Trb>)
    ensures |r| == |ts|
  {
    if ts == [] then [] else [ts[0].(cycle := false)] + Stripped(ts[1..])
  }

  lemma ProducedAt(e: EventRing, events: seq<Trb>, i: nat)
    requires e.dequeue < |e.slots| && i < |events| <= |e.slots|
    ensures
      var n := |e.slots|;
      Produce(e, events).slots[Slot(n, e.dequeue, i)] == events[i].(cycle := LapCycle(n, e.dequeue, i, e.ccs))
  {
    assert Ahead(|e.slots|, e.dequeue, Slot(|e.slots|, e.dequeue, i)) == i;
  }

  lemma {:induction false} DrainFrom(n: nat, d: nat, c: bool, events: seq<Trb>, p: EventRing, j: nat)
    requires d < n == |p.slots| && j <= |events| <= n
    requires forall i | j <= i < |events| :: p.slots[Slot(n, d, i)] == events[i].(cycle := LapCycle(n, d, i, c))
    ensures
      var r := DequeueN(Reading(p, d, c, j), |events| - j);
      && r.Some?
      && r.value.1 == Reading(p, d, c, |events|)
      && Stripped(r.value.0) == Stripped(events[j..])
    decreases |events| - j
  {
    if j < |events| {
      var s := Reading(p, d, c, j);
      assert Dequeue(s) == Some((p.slots[Slot(n, d, j)], Reading(p, d, c, j + 1)));
      DrainFrom(n, d, c, events, p, j + 1);
      var r := DequeueN(Reading(p, d, c, j + 1), |events| - j - 1);
      var t := p.slots[Slot(n, d, j)];
      assert DequeueN(s, |events| - j) == Some(([t] + r.value.0, r.value.1));
      assert ([t] + r.value.0)[1..] == r.value.0;
      assert events[j..][1..] == events[j + 1..];
    }
  }

  /** The events the controller writes into a caught-up ring, up to a full
      lap, are dequeued in the order written, with nothing lost or
      repeated; after them the ring is caught up again, so the next
      dequeue finds nothing. */
  lemma EventsDequeuedInOrder(e: EventRing, events: seq<Trb>, p: EventRing)
    requires CaughtUp(e) && |events| <= |e.slots| && p == Produce(e, events)
    ensures
      var r := DequeueN(p, |events|);
      && r.Some?
      && Stripped(r.value.0) == Stripped(events)
      && CaughtUp(r.value.1)
      && Dequeue(r.value.1).None?
  {
    forall i | 0 <= i < |events|
      ensures p.slots[Slot(|e.slots|, e.dequeue, i)] == events[i].(cycle := LapCycle(|e.slots|, e.dequeue, i, e.ccs))
    {
      ProducedAt(e, events, i);
    }
    assert Reading(p, e.dequeue, e.ccs, 0) == p;
    assert events[0..] == events;
    DrainFrom(|e.slots|, e.dequeue, e.ccs, events, p, 0);
    var r := DequeueN(p, |events|);
    assert r == DequeueN(Reading(p, e.dequeue, e.ccs, 0), |events| - 0);
    CaughtUpAfter(e, events, p);
  }

  lemma CaughtUpAfter(e: EventRing, events: seq<Trb>, p: EventRing)
    requires CaughtUp(e) && |events| <= |e.slots| && p == Produce(e, events)
    ensures CaughtUp(Reading(p, e.dequeue, e.ccs, |events|))
  {
    var n := |e.slots|;
    var d := e.dequeue;
    var k := |events|;
    var r := Reading(p, d, e.ccs, k);
    forall q | 0 <= q < n
      ensures (q < r.dequeue ==> p.slots[q].cycle == r.ccs) && (q >= r.dequeue ==> p.slots[q].cycle != r.ccs)
    {
    }
  }

  /** trb_event_ring: the controller writes its TRBs; dequeue_trb reads
      them. When nothing more is left to read, set_handler_not_busy
      reports the dequeue position to the controller. */
  class EventRingReader {
    const slots: array<Trb>
    var dequeue: nat
    var ccs: bool
    /** The dequeue position last written to the interrupter's ERDP
        register. */
    var reported: nat

    ghost function State(): EventRing
      reads this, slots
    {
      EventRing(slots[..], dequeue, ccs)
    }

    ghost predicate Valid()
      reads this, slots
    {
      dequeue < slots.Length
    }

    /** An event ring of maxEntries cleared TRBs (16 to 4096), read from the
        start with the consumer cycle state set: caught up. */
    constructor (maxEntries: nat, interrupter: nat)
      requires 16 <= maxEntries <= 4096 && interrupter < 1024
      ensures Valid() && CaughtUp(State()) && slots.Length == maxEntries && reported == 0
      ensures forall i | 0 <= i < maxEntries :: slots[i] == ZeroTrb()
    {
      slots := new Trb[maxEntries](i => ZeroTrb());
      dequeue := 0;
      ccs := true;
      reported := 0;
    }

    /** dequeue_trb: the next TRB if the controller has written it. The
        position is reported to the controller when nothing more is left
        to read. */
    method DequeueTrb() returns (ok: bool, trb: Trb)
      requires Valid()
      modifies this
      ensures Valid() && slots[..] == old(slots[..])
      ensures
        match Dequeue(old(State()))
        case None => !ok && State() == old(State()) && reported == dequeue
        case Some((t, e')) =>
          && ok && trb == t && State() == e'
          && reported == (if slots[dequeue].cycle != ccs then dequeue else old(reported))
    {
      ok := false;
      trb := ZeroTrb();
      if slots[dequeue].cycle == ccs {
        trb := slots[dequeue];
        dequeue := dequeue + 1;
        if dequeue >= slots.Length {
          dequeue := 0;
          ccs := !ccs;
        }
        if slots[dequeue].cycle != ccs {
          reported := dequeue;
        }
        ok := true;
      }
      if !ok {
        reported := dequeue;
      }
    }
  }
}
