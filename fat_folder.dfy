/** A directory on a FAT volume (kernel/system_tree/fs/fat/fat_folder.cpp):
    the table of 32-byte directory entries kept in the directory's file.
    Looking a name up, adding the entries of a new name and freeing the
    entries of a removed one all work entry by entry on that table. */
module FatFolder {
  import opened Common
  import opened FatNames

  /** A directory holds at most 65535 entries, and add_directory_entries
      looks at no more than that. */
  const MAX_ENTRIES: nat := 0xFFFF
  /** The first byte of an entry that is free for re-use. */
  const FREE_ENTRY: byte := 0xE5
  /** add_directory_entries adds between 1 and 21 entries: up to 20 for a
      long name and one short entry. */
  const MAX_NEW_ENTRIES: nat := 21

  predicate IsTable(t: seq<seq<byte>>)
  {
    forall i | 0 <= i < |t| :: |t[i]| == 32
  }

  /** The entry add_directory_entries writes to mark the new end of the
      directory: all zero. */
  function ZeroEntry(): (e: seq<byte>)
    ensures |e| == 32 && e[0] == 0
  {
    seq(32, k => 0)
  }

  /** The table with entry i replaced, or added when i is one past the end. */
  function Put(t: seq<seq<byte>>, i: nat, e: seq<byte>): (r: seq<seq<byte>>)
    requires i <= |t|
    ensures |r| == Max(|t|, i + 1) && r[i] == e
    ensures forall k | 0 <= k < |t| && k != i :: r[k] == t[k]
  {
    if i < |t| then t[i := e] else t + [e]
  }

  /** The table with es written from index at on, growing it as needed. */
  function Overwrite(t: seq<seq<byte>>, at: nat, es: seq<seq<byte>>): (r: seq<seq<byte>>)
    requires at <= |t|
    ensures |r| == Max(|t|, at + |es|)
    ensures forall k | 0 <= k < |es| :: r[at + k] == es[k]
    ensures forall k | 0 <= k < |t| && !(at <= k < at + |es|) :: r[k] == t[k]
  {
    t[..at] + es + (if at + |es| < |t| then t[at + |es|..] else [])
  }

  /** Writing the next entry extends the run of entries written. */
  lemma OverwriteStep(t: seq<seq<byte>>, at: nat, es: seq<seq<byte>>, e: seq<byte>)
    requires at <= |t| && at + |es| <= |Overwrite(t, at, es)|
    ensures Put(Overwrite(t, at, es), at + |es|, e) == Overwrite(t, at, es + [e])
  {
    var a := Put(Overwrite(t, at, es), at + |es|, e);
    var b := Overwrite(t, at, es + [e]);
    assert |a| == |b|;
    forall k | 0 <= k < |a|
      ensures a[k] == b[k]
    {
      if at <= k < at + |es| {
        assert b[k] == (es + [e])[k - at];
      }
    }
  }

  // ---------------------------------------------------------------------------
  // Comparing long-name entries.

  /** soft_compare_lfn_entries as written: the order and attribute bytes,
      then kl_memcmp over 5, 6 and 2 BYTES of the three character arrays,
      which hold 10, 12 and 4 bytes. */
  predicate SoftCompareAsWritten(a: seq<byte>, b: seq<byte>)
    requires |a| == 32 && |b| == 32
  {
    a[0] == b[0] && a[11] == b[11] && a[1..6] == b[1..6] && a[14..20] == b[14..20] && a[28..30] == b[28..30]
  }

  /** Two entries differing only in their fourth character: the long-name
      entries of "AAAA" and "AAAB". */
  lemma SoftCompareMissesCharacters()
    ensures
      var a := EntryBytes(0x41, seq(13, s => if s < 4 then 0x41 else if s == 4 then 0 else 0xFFFF));
      var b := EntryBytes(0x41, seq(13, s => if s < 3 then 0x41 else if s == 3 then 0x42 else if s == 4 then 0 else 0xFFFF));
      SoftCompareAsWritten(a, b) && LfnChar(a, 3) != LfnChar(b, 3)
  {
    var ca := seq(13, s => if s < 4 then 0x41 else if s == 4 then 0 else 0xFFFF);
    var cb := seq(13, s => if s < 3 then 0x41 else if s == 3 then 0x42 else if s == 4 then 0 else 0xFFFF);
    assert cb == ca[3 := 0x42];
    SetCharOfEntry(0x41, ca, 3, 0x42);
    EntryBytesChars(0x41, ca, 3);
    EntryBytesChars(0x41, cb, 3);
    var a := EntryBytes(0x41, ca);
    var b := EntryBytes(0x41, cb);
    assert b == a[7 := 0x42][8 := 0];
    assert a[1..6] == b[1..6] && a[14..20] == b[14..20] && a[28..30] == b[28..30];
  }

  /** soft_compare_lfn_entries, corrected to compare all 13 characters: the
      order, the attribute and every character agree. */
  predicate SoftCompare(a: seq<byte>, b: seq<byte>)
    requires |a| == 32 && |b| == 32
  {
    a[0] == b[0] && a[11] == b[11] && forall s | 0 <= s < 13 :: LfnChar(a, s) == LfnChar(b, s)
  }

  lemma CharBytes(x: byte, y: byte, x': byte, y': byte)
    requires x + 256 * y == x' + 256 * y'
    ensures x == x' && y == y'
  {
  }

  /** The corrected comparison ignores exactly the fields that may not be
      known: the two zero fields and the checksum. */
  lemma SoftCompareBytes(a: seq<byte>, b: seq<byte>)
    requires |a| == 32 && |b| == 32
    ensures SoftCompare(a, b) <==>
      forall k | 0 <= k < 32 && k != 12 && k != 13 && k != 26 && k != 27 :: a[k] == b[k]
  {
    if SoftCompare(a, b) {
      forall k | 0 <= k < 32 && k != 12 && k != 13 && k != 26 && k != 27
        ensures a[k] == b[k]
      {
        if k != 0 && k != 11 {
          var s := SlotOf(k).value;
          assert LfnChar(a, s) == LfnChar(b, s);
          CharBytes(a[CharOffset(s)], a[CharOffset(s) + 1], b[CharOffset(s)], b[CharOffset(s) + 1]);
        }
      }
    }
  }

  // ---------------------------------------------------------------------------
  // Finding room for new entries.

  /** Where the run of free entries that ends just before index i starts. */
  function FreeRunStart(t: seq<seq<byte>>, i: nat): (s: nat)
    requires IsTable(t) && i <= |t|
    ensures s <= i && forall k | s <= k < i :: t[k][0] == FREE_ENTRY
    ensures s > 0 ==> t[s - 1][0] != FREE_ENTRY
  {
    if i > 0 && t[i - 1][0] == FREE_ENTRY then FreeRunStart(t, i - 1) else i
  }

  /** Index i ends the search for room for num entries: it is the end of
      the directory, or the last of num free entries in a row. */
  predicate Done(t: seq<seq<byte>>, num: nat, i: nat)
    requires IsTable(t) && i < |t|
  {
    t[i][0] == 0 || (num <= i + 1 && forall k | i + 1 - num <= k <= i :: t[k][0] == FREE_ENTRY)
  }

  /** Where add_directory_entries' first loop leaves the new entries: from
      first on, and whether they replace the end of the directory. The
      loop may also stop at an entry it cannot read, or after its 65535
      turns, with found_first_idx as the last run of free entries left
      it. */
  datatype Placement = Fits(first: nat, atEnd: bool) | ReadFailed | Exhausted(stale: nat)

  /** The state of that loop before index i: mid_match_group,
      found_first_idx and found_spaces describe the run of free entries
      just before i. */
  predicate RunState(t: seq<seq<byte>>, num: nat, i: nat, mid: bool, first: nat, spaces: nat)
    requires IsTable(t) && i <= |t|
  {
    && spaces == i - FreeRunStart(t, i) && spaces < num
    && (mid <==> spaces > 0) && (mid ==> first == FreeRunStart(t, i)) && first <= i
  }

  /** The first loop of add_directory_entries, from index i. */
  function ScanFrom(t: seq<seq<byte>>, num: nat, i: nat, mid: bool, first: nat, spaces: nat): (p: Placement)
    requires IsTable(t) && |t| <= MAX_ENTRIES && 1 <= num <= MAX_NEW_ENTRIES && i <= |t|
    requires RunState(t, num, i, mid, first, spaces)
    ensures p.Fits? ==> p.first < |t|
    ensures p.ReadFailed? ==> |t| < MAX_ENTRIES
    ensures p.Exhausted? ==> |t| == MAX_ENTRIES
    decreases |t| - i
  {
    if i == MAX_ENTRIES then Exhausted(first)
    else if i == |t| then ReadFailed
    else if t[i][0] == FREE_ENTRY then
      var first' := if mid then first else i;
      var spaces' := if mid then spaces + 1 else 1;
      if spaces' == num then Fits(first', false)
      else ScanFrom(t, num, i + 1, true, first', spaces')
    else if t[i][0] == 0 then Fits(if mid then first else i, true)
    else ScanFrom(t, num, i + 1, false, first, 0)
  }

  function Scan(t: seq<seq<byte>>, num: nat): (p: Placement)
    requires IsTable(t) && |t| <= MAX_ENTRIES && 1 <= num <= MAX_NEW_ENTRIES
    ensures p.Fits? ==> p.first < |t|
  {
    ScanFrom(t, num, 0, false, 0, 0)
  }

  /** A free entry at i lengthens the run before it by one; it ends the
      search exactly when the run reaches num entries. */
  lemma FreeStep(t: seq<seq<byte>>, num: nat, i: nat, mid: bool, first: nat, spaces: nat)
    requires IsTable(t) && i < |t| && t[i][0] == FREE_ENTRY && RunState(t, num, i, mid, first, spaces)
    ensures FreeRunStart(t, i + 1) == FreeRunStart(t, i)
    ensures (if mid then spaces + 1 else 1) == i + 1 - FreeRunStart(t, i + 1)
    ensures Done(t, num, i) <==> (if mid then spaces + 1 else 1) == num
  {
    var run := FreeRunStart(t, i);
    assert FreeRunStart(t, i + 1) == run;
    if (if mid then spaces + 1 else 1) != num {
      RunTooShort(t, num, i, run);
    }
  }

  /** A run of free entries shorter than num does not end the search. */
  lemma RunTooShort(t: seq<seq<byte>>, num: nat, i: nat, run: nat)
    requires IsTable(t) && i < |t| && t[i][0] != 0 && run == FreeRunStart(t, i + 1) && i + 1 - run < num
    ensures !Done(t, num, i)
  {
    if num <= i + 1 {
      assert t[run - 1][0] != FREE_ENTRY;
    }
  }

  /** The loop stops at the first index that ends the search: at the end
      of the directory the new entries start with the free run before it;
      otherwise they fill the run of num free entries. */
  lemma {:induction false} ScanStops(t: seq<seq<byte>>, num: nat, i: nat, mid: bool, first: nat, spaces: nat,
                                     p: Placement)
    returns (stop: nat)
    requires IsTable(t) && |t| <= MAX_ENTRIES && 1 <= num <= MAX_NEW_ENTRIES && i <= |t|
    requires RunState(t, num, i, mid, first, spaces) && p == ScanFrom(t, num, i, mid, first, spaces)
    ensures p.Fits? ==>
      && i <= stop < |t| && Done(t, num, stop) && (forall j | i <= j < stop :: !Done(t, num, j))
      && (t[stop][0] == 0 ==> p == Fits(FreeRunStart(t, stop), true))
      && (t[stop][0] != 0 ==> p.first + num == stop + 1 && !p.atEnd)
    ensures !p.Fits? ==> forall j | i <= j < |t| :: !Done(t, num, j)
    decreases |t| - i
  {
    if i == MAX_ENTRIES || i == |t| {
      return 0;
    }
    if t[i][0] == FREE_ENTRY {
      var spaces' := if mid then spaces + 1 else 1;
      FreeStep(t, num, i, mid, first, spaces);
      if spaces' == num {
        return i;
      }
      stop := ScanStops(t, num, i + 1, true, if mid then first else i, spaces', p);
    } else if t[i][0] == 0 {
      assert Done(t, num, i);
      return i;
    } else {
      assert !Done(t, num, i);
      stop := ScanStops(t, num, i + 1, false, first, 0, p);
    }
  }

  /** The loop finds room exactly when some index ends the search, at the
      first such index; with none it fails on the entry past the table or,
      for a table of 65535 entries, runs out of turns. */
  lemma ScanMeaning(t: seq<seq<byte>>, num: nat, i: nat, mid: bool, first: nat, spaces: nat, p: Placement)
    returns (stop: nat)
    requires IsTable(t) && |t| <= MAX_ENTRIES && 1 <= num <= MAX_NEW_ENTRIES && i <= |t|
    requires RunState(t, num, i, mid, first, spaces) && p == ScanFrom(t, num, i, mid, first, spaces)
    ensures p.Fits? ==>
      && i <= stop < |t| && Done(t, num, stop) && (forall j | i <= j < stop :: !Done(t, num, j))
      && (t[stop][0] == 0 ==> p == Fits(FreeRunStart(t, stop), true))
      && (t[stop][0] != 0 ==> p.first + num == stop + 1 && !p.atEnd)
    ensures p.ReadFailed? <==> |t| < MAX_ENTRIES && forall j | i <= j < |t| :: !Done(t, num, j)
    ensures p.Exhausted? <==> |t| == MAX_ENTRIES && forall j | i <= j < |t| :: !Done(t, num, j)
  {
    stop := ScanStops(t, num, i, mid, first, spaces, p);
  }

  /** Where add_directory_entries as written puts the new entries: when its
      first loop runs out of turns it carries on regardless, from the stale
      found_first_idx. It gives up only when a read fails. */
  function PlacementAsWritten(p: Placement): (r: Option<(nat, bool)>)
    ensures r.None? <==> p.ReadFailed?
    ensures p.Fits? ==> r == Some((p.first, p.atEnd))
    ensures p.Exhausted? ==> r.Some? && !r.value.1
  {
    match p
    case Fits(first, atEnd) => Some((first, atEnd))
    case Exhausted(stale) => Some((stale, false))
    case ReadFailed => None
  }

  lemma {:induction false} InUseScan(t: seq<seq<byte>>, num: nat, i: nat)
    requires IsTable(t) && |t| == MAX_ENTRIES && 1 <= num <= MAX_NEW_ENTRIES && i <= |t|
    requires forall k | 0 <= k < |t| :: t[k][0] != 0 && t[k][0] != FREE_ENTRY
    ensures RunState(t, num, i, false, 0, 0) && ScanFrom(t, num, i, false, 0, 0) == Exhausted(0)
    decreases |t| - i
  {
    if i < |t| {
      InUseScan(t, num, i + 1);
    }
  }

  /** A directory of 65535 entries, all in use: the loop ends without
      finding room, and the entries are written from index 0, over an entry
      in use. */
  lemma FullDirectoryOverwritten(t: seq<seq<byte>>, num: nat)
    requires IsTable(t) && |t| == MAX_ENTRIES && 1 <= num <= MAX_NEW_ENTRIES
    requires forall k | 0 <= k < |t| :: t[k][0] != 0 && t[k][0] != FREE_ENTRY
    ensures PlacementAsWritten(Scan(t, num)) == Some((0, false))
    ensures t[0][0] != 0 && t[0][0] != FREE_ENTRY
  {
    InUseScan(t, num, 0);
  }

  /** The error write_fde gives for an index the directory cannot reach:
      set_file_size refuses to resize the fixed root directory of a FAT12
      or FAT16 volume, and to make a directory larger than 65535 entries. */
  function GrowError(growable: bool): ErrCode
  {
    if growable then InvalidParam else InvalidOp
  }

  /** The table once add_directory_entries has written the entries from
      first on: as many as the directory can hold, then, when the old end
      of the directory was used and there is room, a new end marker. */
  function Placed(t: seq<seq<byte>>, fdes: seq<seq<byte>>, first: nat, atEnd: bool, cap: nat): seq<seq<byte>>
    requires first <= |t| <= cap
  {
    var n := |fdes|;
    var t1 := Overwrite(t, first, fdes[..Min(n, cap - first)]);
    if atEnd && first + n < cap then Put(t1, first + n, ZeroEntry()) else t1
  }

  /** Its result: an error when an entry or the end marker does not fit. */
  function PlacedResult(n: nat, first: nat, atEnd: bool, cap: nat, growable: bool): ErrCode
  {
    if first + n > cap || (atEnd && first + n == cap) then GrowError(growable) else NoError
  }

  /** The new entries replace only free entries and entries at or past the
      end of the directory: no entry in use is lost. The entries before the
      new ones are kept, and when all fit the directory ends after them or
      continues with the free entries that followed. */
  lemma PlacedKeepsEntries(t: seq<seq<byte>>, fdes: seq<seq<byte>>, cap: nat, p: Placement)
    requires IsTable(t) && |t| <= cap <= MAX_ENTRIES && 1 <= |fdes| <= MAX_NEW_ENTRIES
    requires p == Scan(t, |fdes|) && p.Fits?
    ensures p.first < |t|
    ensures
      var t' := Placed(t, fdes, p.first, p.atEnd, cap);
      && (forall k | 0 <= k < p.first :: t'[k] == t[k])
      && (forall k | 0 <= k < |t| && t'[k] != t[k] :: t[k][0] == FREE_ENTRY || EndedBy(t, k))
      && (p.first + |fdes| <= cap ==> forall j | 0 <= j < |fdes| :: t'[p.first + j] == fdes[j])
      && (p.atEnd && p.first + |fdes| < cap ==> t'[p.first + |fdes|] == ZeroEntry())
  {
    var stop := ScanStops(t, |fdes|, 0, false, 0, 0, p);
    OverwritesOnlyFree(t, fdes, p.first, p.atEnd, cap, stop);
  }

  lemma OverwritesOnlyFree(t: seq<seq<byte>>, fdes: seq<seq<byte>>, first: nat, atEnd: bool, cap: nat, stop: nat)
    requires IsTable(t) && first <= stop < |t| <= cap
    requires forall k | first <= k < stop :: t[k][0] == FREE_ENTRY
    requires atEnd ==> t[stop][0] == 0
    requires !atEnd ==> first + |fdes| == stop + 1 && t[stop][0] == FREE_ENTRY
    ensures
      var t' := Placed(t, fdes, first, atEnd, cap);
      && (forall k | 0 <= k < first :: t'[k] == t[k])
      && (forall k | 0 <= k < |t| && t'[k] != t[k] :: t[k][0] == FREE_ENTRY || EndedBy(t, k))
      && (first + |fdes| <= cap ==> forall j | 0 <= j < |fdes| :: t'[first + j] == fdes[j])
      && (atEnd && first + |fdes| < cap ==> t'[first + |fdes|] == ZeroEntry())
  {
    var t' := Placed(t, fdes, first, atEnd, cap);
    forall k | 0 <= k < |t| && t'[k] != t[k]
      ensures t[k][0] == FREE_ENTRY || EndedBy(t, k)
    {
      if atEnd && k >= stop {
        assert EndedBy(t, k) by {
          assert 0 <= stop <= k && t[stop][0] == 0;
        }
      }
    }
  }

  /** The directory's end marker lies at or before index k. */
  predicate EndedBy(t: seq<seq<byte>>, k: nat)
    requires IsTable(t) && k < |t|
  {
    exists e | 0 <= e <= k :: t[e][0] == 0
  }

  // ---------------------------------------------------------------------------
  // Freeing the entries of a name.

  predicate IsLongNameEntry(e: seq<byte>)
    requires |e| == 32
  {
    e[11] == LFN_ATTRIBUTE
  }

  /** An entry marked free: its first byte 0xE5, the rest kept. */
  function MarkFree(e: seq<byte>): (r: seq<byte>)
    requires |e| == 32
    ensures |r| == 32 && r[0] == FREE_ENTRY && r[1..] == e[1..]
  {
    e[0 := FREE_ENTRY]
  }

  /** Where the run of long-name entries just before index i starts. */
  function LongRunStart(t: seq<seq<byte>>, i: nat): (s: nat)
    requires IsTable(t) && i <= |t|
    ensures s <= i && forall k | s <= k < i :: IsLongNameEntry(t[k])
    ensures s > 0 ==> !IsLongNameEntry(t[s - 1])
  {
    if i > 0 && IsLongNameEntry(t[i - 1]) then LongRunStart(t, i - 1) else i
  }

  /** The table with entries lo to idx marked free. */
  function FreedFrom(t: seq<seq<byte>>, lo: nat, idx: nat): (r: seq<seq<byte>>)
    requires IsTable(t) && idx < |t|
    ensures |r| == |t| && IsTable(r)
  {
    seq(|t|, k requires 0 <= k < |t| => if lo <= k <= idx then MarkFree(t[k]) else t[k])
  }

  /** The table once the name whose short entry is at idx is unlinked: that
      entry and the long-name entries just before it are free. */
  function Unlinked(t: seq<seq<byte>>, idx: nat): seq<seq<byte>>
    requires IsTable(t) && idx < |t|
  {
    FreedFrom(t, LongRunStart(t, idx), idx)
  }

  /** Unlinking frees the short entry and every long-name entry of its
      name, stops at the entry before them, which is not a long-name entry,
      and changes nothing but the first byte of the entries it frees. */
  lemma UnlinkFreesName(t: seq<seq<byte>>, idx: nat)
    requires IsTable(t) && idx < |t|
    ensures
      var lo := LongRunStart(t, idx);
      var t' := Unlinked(t, idx);
      && |t'| == |t|
      && (forall k | lo <= k <= idx :: t'[k][0] == FREE_ENTRY && t'[k][1..] == t[k][1..])
      && (forall k | lo <= k < idx :: IsLongNameEntry(t[k]))
      && (lo > 0 ==> !IsLongNameEntry(t[lo - 1]))
      && (forall k | 0 <= k < |t| && !(lo <= k <= idx) :: t'[k] == t[k])
  {
  }

  /** Freeing one more entry below the run. */
  lemma FreedFromStep(t: seq<seq<byte>>, lo: nat, idx: nat)
    requires IsTable(t) && 0 < lo <= idx < |t|
    ensures Put(FreedFrom(t, lo, idx), lo - 1, MarkFree(t[lo - 1])) == FreedFrom(t, lo - 1, idx)
  {
  }

  /** unlink_fdes as written, for an index it can read: starting from a
      long-name entry it reports success and frees nothing. It never reports
      an error, and from a short entry it frees what the intended unlink
      frees. */
  function UnlinkAsWritten(t: seq<seq<byte>>, idx: nat): (r: (ErrCode, seq<seq<byte>>))
    requires IsTable(t) && idx < |t|
    ensures r.0 == NoError
    ensures IsLongNameEntry(t[idx]) ==> r.1 == t
    ensures !IsLongNameEntry(t[idx]) ==> r.1 == Unlinked(t, idx)
  {
    if IsLongNameEntry(t[idx]) then (NoError, t) else (NoError, Unlinked(t, idx))
  }

  /** The INVALID_OP branch tests lfn_flag != 0x0F after the first test
      failed, so a long-name entry given as the short entry is refused
      silently. */
  lemma UnlinkLongEntryReportsSuccess(t: seq<seq<byte>>, idx: nat)
    requires IsTable(t) && idx < |t| && IsLongNameEntry(t[idx])
    ensures UnlinkAsWritten(t, idx).0 == NoError && UnlinkAsWritten(t, idx).1 == t
  {
  }

  // ---------------------------------------------------------------------------
  // Looking a name up.

  /** Where a lookup stopped: at the matching entry, or not found with the
      index get_dir_entry reports. */
  datatype Lookup = Found(idx: nat) | Missing(idx: nat)

  /** The short-name scan from entry i: the first entry whose 11 name
      bytes are sn; the end marker stops it at its own index, and reading
      past the end of the directory at one beyond the last entry read. */
  function ShortScan(t: seq<seq<byte>>, sn: seq<byte>, i: nat): (r: Lookup)
    requires IsTable(t) && |sn| == 11 && i <= |t|
    ensures r.Found? ==>
      && i <= r.idx < |t| && t[r.idx][..11] == sn && t[r.idx][0] != 0
      && forall j | i <= j < r.idx :: t[j][0] != 0 && t[j][..11] != sn
    ensures r.Missing? ==>
      && i <= r.idx <= |t| + 1 && (r.idx == |t| + 1 || (r.idx < |t| && t[r.idx][0] == 0))
      && forall j | i <= j < |t| && j < r.idx :: t[j][0] != 0 && t[j][..11] != sn
    decreases |t| - i
  {
    if i == |t| then Missing(i + 1)
    else if t[i][0] == 0 then Missing(i)
    else if t[i][..11] == sn then Found(i)
    else ShortScan(t, sn, i + 1)
  }

  /** The entry comparison the long-name scan uses: soft_compare_lfn_entries
      as written, or corrected. */
  predicate Compare(exact: bool, a: seq<byte>, b: seq<byte>)
    requires |a| == 32 && |b| == 32
  {
    if exact then SoftCompare(a, b) else SoftCompareAsWritten(a, b)
  }

  /** One entry against entry c of the pattern, given the checksum sum the
      entries matched so far carry: the new count and checksum. A mismatch
      restarts the count; with recheck the entry is then tried as the
      start of the name. */
  function Match(pattern: seq<seq<byte>>, c: nat, sum: byte, e: seq<byte>, exact: bool, recheck: bool): (r: (nat, byte))
    requires IsTable(pattern) && c < |pattern| && |e| == 32
    ensures r.0 <= c + 1 && r.0 <= |pattern|
    decreases c
  {
    if Compare(exact, pattern[c], e) && (c == 0 || sum == e[13]) then
      (c + 1, if c == 0 then e[13] else sum)
    else if recheck && c > 0 then Match(pattern, 0, sum, e, exact, recheck)
    else (0, sum)
  }

  /** The long-name scan from entry i, with c pattern entries matched so
      far under checksum sum: found at the entry after all of them whose
      short-name checksum is sum. */
  function LongScan(t: seq<seq<byte>>, pattern: seq<seq<byte>>, i: nat, c: nat, sum: byte,
                    exact: bool, recheck: bool): (r: Lookup)
    requires IsTable(t) && IsTable(pattern) && 1 <= |pattern| && c <= |pattern| && i <= |t|
    ensures r.Found? ==> i <= r.idx < |t| && t[r.idx][0] != 0
    ensures r.Missing? ==> i <= r.idx <= |t| + 1 && (r.idx == |t| + 1 || (r.idx < |t| && t[r.idx][0] == 0))
    decreases |t| - i
  {
    if i == |t| then Missing(i + 1)
    else if t[i][0] == 0 then Missing(i)
    else if c == |pattern| && sum == ChkSum(t[i][..11]) then Found(i)
    else
      var next := Match(pattern, if c == |pattern| then 0 else c, sum, t[i], exact, recheck);
      LongScan(t, pattern, i + 1, next.0, next.1, exact, recheck)
  }

  /** The c entries before index i match the first c entries of the
      pattern, all with checksum sum. */
  ghost predicate Matched(t: seq<seq<byte>>, pattern: seq<seq<byte>>, i: nat, c: nat, sum: byte, exact: bool)
    requires IsTable(t) && IsTable(pattern) && i <= |t|
  {
    c <= i && c <= |pattern|
    && forall m | 0 <= m < c :: Compare(exact, pattern[m], t[i - c + m]) && t[i - c + m][13] == sum
  }

  lemma MatchKeepsMatched(t: seq<seq<byte>>, pattern: seq<seq<byte>>, i: nat, c: nat, sum: byte,
                          exact: bool, recheck: bool)
    requires IsTable(t) && IsTable(pattern) && c < |pattern| && i < |t|
    requires Matched(t, pattern, i, c, sum, exact)
    ensures
      var next := Match(pattern, c, sum, t[i], exact, recheck);
      Matched(t, pattern, i + 1, next.0, next.1, exact)
    decreases c
  {
    var e := t[i];
    if Compare(exact, pattern[c], e) && (c == 0 || sum == e[13]) {
      var next := Match(pattern, c, sum, e, exact, recheck);
      forall m | 0 <= m < c + 1
        ensures Compare(exact, pattern[m], t[i + 1 - (c + 1) + m]) && t[i + 1 - (c + 1) + m][13] == next.1
      {
        if m < c {
          assert t[i + 1 - (c + 1) + m] == t[i - c + m];
        }
      }
    } else if recheck && c > 0 {
      MatchKeepsMatched(t, pattern, i, 0, sum, exact, recheck);
    }
  }

  /** What the long-name scan finds is a name: the entries just before it
      match every entry of the pattern, all carrying the checksum of the
      short entry found. */
  lemma {:induction false} LongScanSound(t: seq<seq<byte>>, pattern: seq<seq<byte>>, i: nat, c: nat, sum: byte,
                                         exact: bool, recheck: bool, r: Lookup)
    requires IsTable(t) && IsTable(pattern) && 1 <= |pattern| && c <= |pattern| && i <= |t|
    requires Matched(t, pattern, i, c, sum, exact)
    requires r == LongScan(t, pattern, i, c, sum, exact, recheck) && r.Found?
    ensures Matched(t, pattern, r.idx, |pattern|, ChkSum(t[r.idx][..11]), exact)
    decreases |t| - i
  {
    if c == |pattern| && sum == ChkSum(t[i][..11]) {
    } else {
      var c0 := if c == |pattern| then 0 else c;
      MatchKeepsMatched(t, pattern, i, c0, sum, exact, recheck);
      var next := Match(pattern, c0, sum, t[i], exact, recheck);
      LongScanSound(t, pattern, i + 1, next.0, next.1, exact, recheck, r);
    }
  }

  /** The entries k to k + |pattern| - 1 hold the pattern, all with the
      checksum of the short entry at k + |pattern|, which is in use. */
  ghost predicate NameAt(t: seq<seq<byte>>, pattern: seq<seq<byte>>, k: nat)
    requires IsTable(t) && IsTable(pattern)
  {
    k + |pattern| < |t| && t[k + |pattern|][0] != 0
    && forall m | 0 <= m < |pattern| ::
         SoftCompare(pattern[m], t[k + m]) && t[k + m][13] == ChkSum(t[k + |pattern|][..11])
  }

  /** The first entry of a pattern is the only one with its order byte. */
  ghost predicate OrderedPattern(pattern: seq<seq<byte>>)
    requires IsTable(pattern)
  {
    1 <= |pattern|
    && forall m | 0 <= m < |pattern| :: pattern[m][0] != 0 && (m > 0 ==> pattern[m][0] != pattern[0][0])
  }

  /** Once inside the name, the corrected scan matches it to the end. */
  lemma {:induction false} RunFinishes(t: seq<seq<byte>>, pattern: seq<seq<byte>>, k: nat, m: nat)
    requires IsTable(t) && IsTable(pattern) && OrderedPattern(pattern) && NameAt(t, pattern, k)
    requires 1 <= m <= |pattern|
    ensures LongScan(t, pattern, k + m, m, ChkSum(t[k + |pattern|][..11]), true, true) == Found(k + |pattern|)
    decreases |pattern| - m
  {
    var s := ChkSum(t[k + |pattern|][..11]);
    if m < |pattern| {
      assert t[k + m][0] == pattern[m][0] != 0;
      assert Match(pattern, m, s, t[k + m], true, true) == (m + 1, s);
      RunFinishes(t, pattern, k, m + 1);
    }
  }

  /** Whatever state the corrected scan reaches the name's first entry in,
      it starts the name there. */
  lemma StartsAt(t: seq<seq<byte>>, pattern: seq<seq<byte>>, k: nat, c: nat, sum: byte)
    requires IsTable(t) && IsTable(pattern) && OrderedPattern(pattern) && NameAt(t, pattern, k) && c < |pattern|
    ensures Match(pattern, c, sum, t[k], true, true) == (1, ChkSum(t[k + |pattern|][..11]))
  {
    if c > 0 {
      assert t[k][0] == pattern[0][0];
      assert !SoftCompare(pattern[c], t[k]);
    }
  }

  /** The corrected long-name scan finds a name that is in the directory
      before any end marker, at the latest at its own short entry. */
  lemma {:induction false} LongScanComplete(t: seq<seq<byte>>, pattern: seq<seq<byte>>, i: nat, c: nat, sum: byte, k: nat)
    requires IsTable(t) && IsTable(pattern) && OrderedPattern(pattern) && NameAt(t, pattern, k)
    requires c <= |pattern| && i <= k && forall j | i <= j < k :: t[j][0] != 0
    ensures
      var r := LongScan(t, pattern, i, c, sum, true, true);
      r.Found? && r.idx <= k + |pattern|
    decreases k - i
  {
    var s := ChkSum(t[k + |pattern|][..11]);
    assert t[k][0] == pattern[0][0] != 0;
    if c == |pattern| && sum == ChkSum(t[i][..11]) {
    } else if i < k {
      var next := Match(pattern, if c == |pattern| then 0 else c, sum, t[i], true, true);
      LongScanComplete(t, pattern, i + 1, next.0, next.1, k);
    } else {
      StartsAt(t, pattern, k, if c == |pattern| then 0 else c, sum);
      RunFinishes(t, pattern, k, 1);
    }
  }

  /** The table that shows the missing re-check: the first entry of a two-
      entry name, the same entry again, the name's second entry and its
      short entry. */
  function RecheckTable(pattern: seq<seq<byte>>, short: seq<byte>): seq<seq<byte>>
    requires IsTable(pattern) && |pattern| == 2 && |short| == 32
  {
    var s := ChkSum(short[..11]);
    [pattern[0][13 := s], pattern[0][13 := s], pattern[1][13 := s], short]
  }

  /** get_dir_entry as written drops a partial match on a mismatch without
      trying the entry as the start of the name, so a stray copy of a
      name's first entry hides the name; the corrected scan finds it. */
  lemma StrayFirstEntryHidesName(name: seq<byte>, short: seq<byte>)
    requires 13 < |name| <= 26 && LongEntries(name).Some?
    requires |short| == 32 && short[0] != 0 && short[11] != LFN_ATTRIBUTE
    ensures
      var pattern := LongEntries(name).value;
      var t := RecheckTable(pattern, short);
      && LongScan(t, pattern, 0, 0, 0, false, false) == Missing(5)
      && LongScan(t, pattern, 0, 0, 0, true, true) == Found(3)
  {
    var pattern := LongEntries(name).value;
    var s := ChkSum(short[..11]);
    var t := RecheckTable(pattern, short);
    assert |pattern| == 2;
    assert SoftCompare(pattern[0], t[0]) && SoftCompareAsWritten(pattern[0], t[0]);
    assert SoftCompare(pattern[1], t[2]);
    assert LongScan(t, pattern, 2, 0, s, false, false) == Missing(5);
    assert LongScan(t, pattern, 1, 1, s, false, false) == Missing(5);
    assert LongScan(t, pattern, 2, 1, s, true, true) == Found(3);
    assert LongScan(t, pattern, 1, 1, s, true, true) == Found(3);
  }

  /** What get_dir_entry reports for a scan: the code, the entry copied
      out (storage unchanged when none is) and found_idx. */
  function Outcome(l: Lookup, t: seq<seq<byte>>, storage: seq<byte>): (ErrCode, seq<byte>, nat)
    requires l.Found? ==> l.idx < |t|
  {
    match l
    case Found(k) => (NoError, t[k], k)
    case Missing(k) => (NotFound, storage, k)
  }

  /** get_dir_entry, corrected: the short name when the name is a valid
      8.3 name or the raw short name is asked for, otherwise the long
      name's entries. */
  function DirLookup(t: seq<seq<byte>>, name: seq<byte>, useRaw: bool, raw: Option<seq<byte>>,
                     storage: seq<byte>): (ErrCode, seq<byte>, nat)
    requires IsTable(t) && (raw.Some? ==> |raw.value| >= 11)
  {
    if useRaw then
      if raw.None? then (InvalidParam, storage, 0)
      else Outcome(ShortScan(t, raw.value[..11], 0), t, storage)
    else if ShortName(name).Some? then Outcome(ShortScan(t, ShortName(name).value, 0), t, storage)
    else if LongEntries(name).Some? then Outcome(LongScan(t, LongEntries(name).value, 0, 0, 0, true, true), t, storage)
    else (NotFound, storage, 0)
  }

  /** A long name whose entries are in the directory before any end marker
      is found, and what is found under a long name is a run of entries
      holding it, carrying the checksum of the short entry returned. */
  lemma LookupLongName(t: seq<seq<byte>>, name: seq<byte>, storage: seq<byte>)
    requires IsTable(t) && ShortName(name).None? && LongEntries(name).Some?
    ensures
      var pattern := LongEntries(name).value;
      var r := DirLookup(t, name, false, None, storage);
      && (forall k: nat | NameAt(t, pattern, k) && (forall j | 0 <= j < k :: t[j][0] != 0) ::
            r.0 == NoError && r.2 <= k + |pattern|)
      && (r.0 == NoError ==>
            r.2 < |t| && r.1 == t[r.2] && Matched(t, pattern, r.2, |pattern|, ChkSum(t[r.2][..11]), true))
  {
    var pattern := LongEntries(name).value;
    var l := LongScan(t, pattern, 0, 0, 0, true, true);
    forall k: nat | NameAt(t, pattern, k) && (forall j | 0 <= j < k :: t[j][0] != 0)
      ensures l.Found? && l.idx <= k + |pattern|
    {
      LongScanComplete(t, pattern, 0, 0, 0, k);
    }
    if l.Found? {
      LongScanSound(t, pattern, 0, 0, 0, true, true, l);
    }
  }

  /** fat_folder: a directory, as the table of its entries. */
  class Folder {
    var table: seq<seq<byte>>
    /** Whether the directory's file may grow: not for the root directory
        of a FAT12 or FAT16 volume. */
    const growable: bool
    /** The most entries the directory can hold. */
    const capacity: nat

    ghost predicate Valid()
      reads this
    {
      && IsTable(table) && |table| <= capacity <= MAX_ENTRIES
      && (growable ==> capacity == MAX_ENTRIES) && (!growable ==> |table| == capacity)
    }

    constructor (entries: seq<seq<byte>>, canGrow: bool)
      requires IsTable(entries) && |entries| <= MAX_ENTRIES
      ensures table == entries && growable == canGrow && Valid()
    {
      table := entries;
      growable := canGrow;
      capacity := if canGrow then MAX_ENTRIES else |entries|;
    }

    /** read_one_dir_entry: entry i of the table; reading past the end of
        the directory's file fails. */
    method ReadOneDirEntry(i: nat) returns (r: ErrCode, e: seq<byte>)
      requires Valid()
      ensures r == NoError <==> i < |table|
      ensures r != NoError ==> r == InvalidParam
      ensures r == NoError ==> e == table[i] && |e| == 32
    {
      if i < |table| {
        r, e := NoError, table[i];
      } else {
        r, e := InvalidParam, [];
      }
    }

    /** write_fde: entry i replaced, or added when i is one past the end;
        an index the directory cannot reach fails and changes nothing. */
    method WriteFde(i: nat, e: seq<byte>) returns (r: ErrCode)
      requires Valid() && |e| == 32 && (i <= |table| || i >= capacity)
      modifies this
      ensures Valid()
      ensures r == NoError <==> i < capacity
      ensures r == NoError ==> table == Put(old(table), i, e)
      ensures r != NoError ==> r == GrowError(growable) && table == old(table)
    {
      if i >= capacity {
        return GrowError(growable);
      }
      table := Put(table, i, e);
      r := NoError;
    }

    /** add_directory_entries, corrected to fail when its first loop runs
        out of turns: the entries go where Scan places them, as many as the
        directory can hold. newIdx is the index of the last of them. */
    method AddDirectoryEntries(fdes: seq<seq<byte>>) returns (result: ErrCode, newIdx: nat)
      requires Valid() && 1 <= |fdes| <= MAX_NEW_ENTRIES && IsTable(fdes)
      modifies this
      ensures Valid()
      ensures old(Scan(table, |fdes|)).ReadFailed? ==> result == InvalidParam && table == old(table)
      ensures old(Scan(table, |fdes|)).Exhausted? ==> result == OutOfResource && table == old(table)
      ensures old(Scan(table, |fdes|)).Fits? ==>
        var p := old(Scan(table, |fdes|));
        && newIdx == p.first + |fdes| - 1
        && table == Placed(old(table), fdes, p.first, p.atEnd, capacity)
        && result == PlacedResult(|fdes|, p.first, p.atEnd, capacity, growable)
    {
      var n := |fdes|;
      var p := FindSpace(n);
      match p
      case ReadFailed =>
        return InvalidParam, 0;
      case Exhausted(_) =>
        return OutOfResource, 0;
      case Fits(first, moveEod) =>
        result := WriteEntries(fdes, first);
        newIdx := first + n - 1;
        if moveEod {
          result := WriteFde(first + n, ZeroEntry());
        }
    }

    /** add_directory_entries' first loop: it reads entry after entry,
        counting the free entries in a row, until num of them are found or
        the end of the directory is reached. */
    method FindSpace(num: nat) returns (p: Placement)
      requires Valid() && 1 <= num <= MAX_NEW_ENTRIES
      ensures p == Scan(table, num)
    {
      ghost var goal := Scan(table, num);
      var i := 0;
      var mid := false;
      var first: nat := 0;
      var spaces: nat := 0;
      var moveEod := false;
      var r: ErrCode;
      var e: seq<byte>;
      while i < MAX_ENTRIES
        invariant i <= |table| && !moveEod
        invariant RunState(table, num, i, mid, first, spaces) && ScanFrom(table, num, i, mid, first, spaces) == goal
      {
        r, e := ReadOneDirEntry(i);
        if r != NoError {
          return ReadFailed;
        }
        if e[0] == FREE_ENTRY {
          FreeStep(table, num, i, mid, first, spaces);
          if mid {
            spaces := spaces + 1;
          } else {
            mid := true;
            spaces := 1;
            first := i;
          }
        } else if e[0] == 0 {
          if !mid {
            first := i;
          }
          moveEod := true;
          spaces := num;
        } else {
          mid := false;
          spaces := 0;
        }
        if spaces == num {
          return Fits(first, moveEod);
        }
        i := i + 1;
      }
      return Exhausted(first);
    }

    /** get_dir_entry, with the long-name scan corrected: the entry stored
        under the name, its index, or NOT_FOUND with the index the scan
        stopped at. */
    method GetDirEntry(name: seq<byte>, useRawShortName: bool, rawShortName: Option<seq<byte>>, storage: seq<byte>)
      returns (r: ErrCode, entry: seq<byte>, foundIdx: nat)
      requires Valid() && (rawShortName.Some? ==> |rawShortName.value| >= 11)
      ensures (r, entry, foundIdx) == DirLookup(table, name, useRawShortName, rawShortName, storage)
    {
      if useRawShortName {
        if rawShortName.None? {
          return InvalidParam, storage, 0;
        }
        r, entry, foundIdx := FindShortName(rawShortName.value[..11], storage);
        return;
      }
      var shortName := new byte[12](_ => 0);
      var ok := PopulateShortName(name, shortName);
      if ok {
        r, entry, foundIdx := FindShortName(shortName[..11], storage);
        return;
      }
      var longNameEntries := new seq<byte>[MAX_LONG_ENTRIES](_ => ZeroEntry());
      var num;
      ok, num := PopulateLongName(name, longNameEntries);
      if !ok {
        return NotFound, storage, 0;
      }
      forall c | 0 <= c < num
        ensures longNameEntries[c] == LongEntries(name).value[c]
      {
        assert longNameEntries[c][13] == 0;
        assert longNameEntries[c] == longNameEntries[c][13 := 0];
      }
      assert longNameEntries[..num] == LongEntries(name).value;
      r, entry, foundIdx := FindLongName(longNameEntries[..num], storage);
    }

    /** get_dir_entry's loop for a short name. */
    method FindShortName(shortName: seq<byte>, storage: seq<byte>) returns (r: ErrCode, entry: seq<byte>, foundIdx: nat)
      requires Valid() && |shortName| == 11
      ensures (r, entry, foundIdx) == Outcome(ShortScan(table, shortName, 0), table, storage)
    {
      var i := 0;
      while true
        invariant i <= |table| && ShortScan(table, shortName, i) == ShortScan(table, shortName, 0)
        decreases |table| - i
      {
        var rr, e := ReadOneDirEntry(i);
        if rr != NoError {
          return NotFound, storage, i + 1;
        }
        if e[0] == 0 {
          return NotFound, storage, i;
        }
        if e[..11] == shortName {
          return NoError, e, i;
        }
        i := i + 1;
      }
    }

    /** get_dir_entry's loop for a long name, pattern its entries: after a
        mismatch part-way through the name the entry is tried again as
        the name's first entry. */
    method FindLongName(pattern: seq<seq<byte>>, storage: seq<byte>) returns (r: ErrCode, entry: seq<byte>, foundIdx: nat)
      requires Valid() && IsTable(pattern) && 1 <= |pattern|
      ensures (r, entry, foundIdx) == Outcome(LongScan(table, pattern, 0, 0, 0, true, true), table, storage)
    {
      ghost var goal := LongScan(table, pattern, 0, 0, 0, true, true);
      var i, countup, sum := 0, 0, 0;
      while true
        invariant i <= |table| && countup <= |pattern|
        invariant LongScan(table, pattern, i, countup, sum, true, true) == goal
        decreases |table| - i
      {
        var rr, e := ReadOneDirEntry(i);
        if rr != NoError {
          return NotFound, storage, i + 1;
        }
        if e[0] == 0 {
          return NotFound, storage, i;
        }
        if countup == |pattern| {
          if sum == ChkSum(e[..11]) {
            return NoError, e, i;
          }
          countup := 0;
        }
        ghost var next := Match(pattern, countup, sum, e, true, true);
        assert Match(pattern, 0, sum, e, true, true) == if SoftCompare(pattern[0], e) then (1, e[13]) else (0, sum);
        var matched := SoftCompare(pattern[countup], e) && (countup == 0 || sum == e[13]);
        if !matched && countup > 0 {
          countup := 0;
          matched := SoftCompare(pattern[0], e);
        }
        if matched {
          if countup == 0 {
            sum := e[13];
          }
          countup := countup + 1;
        } else {
          countup := 0;
        }
        assert (countup, sum) == next;
        i := i + 1;
      }
    }

    /** unlink_fdes, corrected to refuse a long-name entry with INVALID_OP:
        the short entry at idx and the long-name entries just before it are
        marked free. */
    method UnlinkFdes(idx: nat) returns (result: ErrCode)
      requires Valid()
      modifies this
      ensures Valid()
      ensures idx >= |old(table)| ==> result == InvalidParam && table == old(table)
      ensures idx < |old(table)| && IsLongNameEntry(old(table)[idx]) ==>
        result == InvalidOp && table == old(table)
      ensures idx < |old(table)| && !IsLongNameEntry(old(table)[idx]) ==>
        result == NoError && table == Unlinked(old(table), idx)
    {
      var r, fde := ReadOneDirEntry(idx);
      if r == NoError && fde[11] != LFN_ATTRIBUTE {
        result := WriteFde(idx, MarkFree(fde));
        assert table == FreedFrom(old(table), idx, idx);
        FreeLongEntries(old(table), idx);
      } else if r == NoError {
        result := InvalidOp;
      } else {
        result := r;
      }
    }

    /** unlink_fdes' second loop: the long-name entries below the freed
        short entry at idx are freed in turn, down to the first entry that
        is not one. */
    method FreeLongEntries(ghost t0: seq<seq<byte>>, idx: nat)
      requires Valid() && IsTable(t0) && idx < |t0| && table == FreedFrom(t0, idx, idx)
      modifies this
      ensures Valid() && table == Unlinked(t0, idx)
    {
      var i := idx;
      while i > 0
        invariant LongRunStart(t0, idx) <= i <= idx && Valid()
        invariant table == FreedFrom(t0, i, idx)
      {
        var r, fde := ReadOneDirEntry(i - 1);
        if fde[11] != LFN_ATTRIBUTE {
          break;
        }
        FreedFromStep(t0, i, idx);
        var _ := WriteFde(i - 1, MarkFree(fde));
        i := i - 1;
      }
    }

    /** add_directory_entries' second loop: the entries written from first
        on, stopping at the first that does not fit. */
    method WriteEntries(fdes: seq<seq<byte>>, first: nat) returns (result: ErrCode)
      requires Valid() && IsTable(fdes) && first <= |table|
      modifies this
      ensures Valid()
      ensures table == Overwrite(old(table), first, fdes[..Min(|fdes|, capacity - first)])
      ensures result == (if first + |fdes| <= capacity then NoError else GrowError(growable))
      ensures |table| >= first + |fdes| || first + |fdes| > capacity
    {
      var t0 := table;
      var j := 0;
      result := NoError;
      while j < |fdes|
        invariant j <= |fdes| && first + j <= capacity && Valid() && result == NoError
        invariant table == Overwrite(t0, first, fdes[..j])
      {
        result := WriteFde(first + j, fdes[j]);
        if result != NoError {
          break;
        }
        assert fdes[..j + 1] == fdes[..j] + [fdes[j]];
        OverwriteStep(t0, first, fdes[..j], fdes[j]);
        j := j + 1;
      }
    }
  }
}
