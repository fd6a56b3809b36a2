/** The PCI interrupt-link IRQ choice (pci_irq_link_device::chose_interrupt in
    kernel/devices/pci/pci_legacy_interrupts.cpp). */
module PciIrq {
  import opened Common

  const NUM_PREFERENCES: nat := 6
  /** The initial irq_preference_order; -1 marks a preference already used. */
  const INITIAL_PREFERENCES: seq<int> := [10, 11, 3, 5, 6, 7]

  /** An offered interrupt as read into the 16-bit 'possible'. */
  function Offered(choices: seq<u32>, i: nat): u16
    requires i < |choices|
  {
    choices[i] % 0x1_0000
  }

  predicate IsOffered(choices: seq<u32>, v: int)
  {
    exists i :: 0 <= i < |choices| && Offered(choices, i) == v
  }

  /** The first unused preference, from index 'from' on, that the device offers. */
  function FirstUsablePreference(prefs: seq<int>, choices: seq<u32>, from: nat): (p: Option<nat>)
    requires from <= |prefs|
    decreases |prefs| - from
    ensures p.Some? ==> from <= p.value < |prefs| && prefs[p.value] != -1 && IsOffered(choices, prefs[p.value])
    ensures p.Some? ==> forall q :: from <= q < p.value ==> prefs[q] == -1 || !IsOffered(choices, prefs[q])
    ensures p.None? ==> forall q :: from <= q < |prefs| ==> prefs[q] == -1 || !IsOffered(choices, prefs[q])
  {
    if from == |prefs| then None
    else if prefs[from] != -1 && IsOffered(choices, prefs[from]) then Some(from)
    else FirstUsablePreference(prefs, choices, from + 1)
  }

  /** What chose_interrupt returns and what the preference table becomes. */
  function Choose(prefs: seq<int>, choices: seq<u32>): (r: (u16, seq<int>))
    requires |choices| > 0 && forall q :: 0 <= q < |prefs| ==> prefs[q] == -1 || 0 <= prefs[q] < 0x1_0000
  {
    match FirstUsablePreference(prefs, choices, 0)
    case Some(p) => (prefs[p] as u16, prefs[p := -1])
    case None => (Offered(choices, 0), prefs)
  }

  /** When some unused preference is offered, the result is the first such
      preference and exactly that entry of the table is used up; otherwise the
      first offered IRQ is returned and the table is unchanged. */
  lemma ChooseSpec(prefs: seq<int>, choices: seq<u32>)
    requires |choices| > 0 && forall q :: 0 <= q < |prefs| ==> prefs[q] == -1 || 0 <= prefs[q] < 0x1_0000
    ensures var (chosen, after) := Choose(prefs, choices);
      |after| == |prefs| &&
      if exists q :: 0 <= q < |prefs| && prefs[q] != -1 && IsOffered(choices, prefs[q]) then
        exists p :: 0 <= p < |prefs| && prefs[p] != -1 && IsOffered(choices, prefs[p]) &&
          (forall q :: 0 <= q < p ==> prefs[q] == -1 || !IsOffered(choices, prefs[q])) &&
          chosen == prefs[p] && after == prefs[p := -1]
      else chosen == Offered(choices, 0) && after == prefs
  {
    var r := FirstUsablePreference(prefs, choices, 0);
    if r.Some? {
      var p := r.value;
      assert Choose(prefs, choices) == (prefs[p] as u16, prefs[p := -1]);
    }
  }

  /** A preference, once chosen, is -1 in the table, so a later call can only
      return it again through the fallback to the first offered IRQ. */
  lemma {:induction false} UsedPreferenceNotReused(prefs: seq<int>, c1: seq<u32>, c2: seq<u32>)
    requires |c1| > 0 && |c2| > 0
    requires forall q :: 0 <= q < |prefs| ==> prefs[q] == -1 || 0 <= prefs[q] < 0x1_0000
    requires FirstUsablePreference(prefs, c1, 0).Some?
    ensures var p := FirstUsablePreference(prefs, c1, 0).value;
      var after := Choose(prefs, c1).1;
      FirstUsablePreference(after, c2, 0) != Some(p)
  {
    var p := FirstUsablePreference(prefs, c1, 0).value;
    var after := Choose(prefs, c1).1;
    assert after[p] == -1;
  }

  class IrqPreferences {
    /** irq_preference_order. */
    var order: array<int>

    ghost predicate Valid()
      reads this, order
    {
      order.Length == NUM_PREFERENCES &&
      forall q :: 0 <= q < order.Length ==> order[q] == -1 || 0 <= order[q] < 0x1_0000
    }

    constructor ()
      ensures Valid() && fresh(order) && order[..] == INITIAL_PREFERENCES
    {
      order := new int[6] [10, 11, 3, 5, 6, 7];
    }

    /** chose_interrupt. bytesPerInt says whether the ACPI list holds bytes or
        dwords; 'choices' holds the entries as read. */
    method ChoseInterrupt(choices: seq<u32>, bytesPerInt: nat) returns (chosen: u16)
      requires Valid()
      requires |choices| > 0 && |choices| < 0x1_0000
      requires bytesPerInt == 1 || bytesPerInt == 4
      requires bytesPerInt == 1 ==> forall i :: 0 <= i < |choices| ==> choices[i] < 0x100
      modifies order
      ensures Valid()
      ensures (chosen, order[..]) == Choose(old(order[..]), choices)
    {
      ghost var prefs := order[..];
      chosen := 0;
      var preferredIdx := 0;
      var found := false;
      var noMorePrefs := false;
      while !found
        invariant preferredIdx <= NUM_PREFERENCES
        invariant !found ==> order[..] == prefs
        invariant !found ==> FirstUsablePreference(prefs, choices, 0) == FirstUsablePreference(prefs, choices, preferredIdx)
        invariant found ==> (chosen, order[..]) == Choose(prefs, choices)
        decreases NUM_PREFERENCES - preferredIdx, if found then 0 else 1
      {
        while preferredIdx < NUM_PREFERENCES
          invariant preferredIdx <= NUM_PREFERENCES
          invariant FirstUsablePreference(prefs, choices, 0) == FirstUsablePreference(prefs, choices, preferredIdx)
        {
          if order[preferredIdx] != -1 {
            break;
          }
          preferredIdx := preferredIdx + 1;
        }
        if preferredIdx >= NUM_PREFERENCES {
          noMorePrefs := true;
        }
        if noMorePrefs {
          chosen := Offered(choices, 0);
          found := true;
          break;
        } else {
          var possibleIdx := 0;
          while possibleIdx < |choices|
            invariant possibleIdx <= |choices|
            invariant !found && order[..] == prefs
            invariant forall i :: 0 <= i < possibleIdx ==> Offered(choices, i) != prefs[preferredIdx]
          {
            var possible := Offered(choices, possibleIdx);
            if possible == order[preferredIdx] {
              order[preferredIdx] := -1;
              chosen := possible;
              found := true;
              break;
            }
            possibleIdx := possibleIdx + 1;
          }
          preferredIdx := preferredIdx + 1;
        }
      }
    }
  }
}
