/** The CMOS real-time clock driver's time decoding (kernel/devices/legacy/rtc/rtc.cpp).
    Reading the CMOS registers is hardware access: each read attempt is given to
    the model as the two snapshots the driver takes plus the update-in-progress
    flag it checks afterwards. */
module Rtc {
  import opened Common

  /** DECODE_BCD_BYTE: low nibble plus ten times the high nibble. */
  function DecodeBcdByte(x: byte): (r: nat)
    ensures r <= 15 + 15 * 10
    ensures IsBcd(x) ==> r < 100 && EncodeBcdByte(r) == x
  {
    x % 16 + (x / 16) * 10
  }

  /** Both nibbles are decimal digits. */
  predicate IsBcd(x: byte)
  {
    x % 16 < 10 && x / 16 < 10
  }

  /** The BCD byte the RTC chip stores for a value below 100. */
  function EncodeBcdByte(n: nat): (b: byte)
    requires n < 100
    ensures IsBcd(b)
  {
    (n / 10) * 16 + n % 10
  }

  lemma BcdRoundTrip(n: nat)
    requires n < 100
    ensures DecodeBcdByte(EncodeBcdByte(n)) == n
  {
    var q, r := n / 10, n % 10;
    assert n == 10 * q + r;
    var b := EncodeBcdByte(n);
    assert b == 16 * q + r;
    assert b % 16 == r && b / 16 == q;
  }

  datatype TimeExpanded = TimeExpanded(
    nanoseconds: nat, seconds: nat, minutes: nat, hours: nat,
    day: nat, month: nat, year: nat)

  /** One snapshot of the six clock registers. */
  datatype CmosSnapshot = CmosSnapshot(
    seconds: byte, minutes: byte, hours: byte,
    day: byte, month: byte, year: byte)

  /** One attempt of get_current_time: the two snapshots and whether the
      update-in-progress flag (status A bit 7) was set after taking them. */
  datatype ReadAttempt = ReadAttempt(first: CmosSnapshot, second: CmosSnapshot, updating: bool)

  /** The clock format, from status register B: BCD when bit 2 is clear,
      12-hour mode when bit 1 is clear. */
  datatype ClockMode = ClockMode(bcd: bool, amPm: bool)

  function ModeFromStatusB(statusB: byte): (m: ClockMode)
    ensures m.bcd <==> (statusB / 4) % 2 == 0
    ensures m.amPm <==> (statusB / 2) % 2 == 0
  {
    ClockMode((statusB / 4) % 2 == 0, (statusB / 2) % 2 == 0)
  }

  function Field(x: byte, bcd: bool): nat
  {
    if bcd then DecodeBcdByte(x) else x
  }

  /** The hours register: in 12-hour mode bit 7 is the PM flag, which adds 12
      hours to the value held in the low seven bits. */
  function DecodeHours(h: byte, mode: ClockMode): (r: nat)
    ensures !mode.amPm ==> r == Field(h, mode.bcd)
    ensures mode.amPm && h < 0x80 ==> r == Field(h, mode.bcd)
    ensures mode.amPm && h >= 0x80 ==> r == Field(h - 0x80, mode.bcd) + 12
  {
    if mode.amPm then
      var low := if h >= 0x80 then h - 0x80 else h;
      assert low == h % 0x80;
      Field(low, mode.bcd) + (if h >= 0x80 then 12 else 0)
    else Field(h, mode.bcd)
  }

  function DecodeTime(s: CmosSnapshot, mode: ClockMode): (t: TimeExpanded)
    ensures t.nanoseconds == 0
    ensures t.year >= 2000
    ensures mode.bcd && IsBcd(s.year) ==> t.year - 2000 < 100 && EncodeBcdByte(t.year - 2000) == s.year
    ensures !mode.bcd ==> t.seconds == s.seconds && t.year == 2000 + s.year
  {
    TimeExpanded(0, Field(s.seconds, mode.bcd), Field(s.minutes, mode.bcd),
                 DecodeHours(s.hours, mode), Field(s.day, mode.bcd),
                 Field(s.month, mode.bcd), 2000 + Field(s.year, mode.bcd))
  }

  /** An attempt is usable when no update started and both snapshots agree. */
  predicate Consistent(a: ReadAttempt)
  {
    !a.updating && a.first == a.second
  }

  /** get_current_time: retry until an attempt is consistent, then decode the
      first snapshot of that attempt. The source retries without bound; here the
      attempts are a finite sequence and running out of them gives None. */
  function GetCurrentTime(attempts: seq<ReadAttempt>, mode: ClockMode): (r: Option<TimeExpanded>)
    ensures r.Some? <==> exists i :: 0 <= i < |attempts| && Consistent(attempts[i])
    ensures r.Some? ==>
      exists i :: 0 <= i < |attempts| && Consistent(attempts[i]) &&
        (forall j :: 0 <= j < i ==> !Consistent(attempts[j])) &&
        r.value == DecodeTime(attempts[i].first, mode)
  {
    if |attempts| == 0 then None
    else if Consistent(attempts[0]) then Some(DecodeTime(attempts[0].first, mode))
    else
      var rest := GetCurrentTime(attempts[1..], mode);
      assert forall i :: 1 <= i < |attempts| ==> attempts[i] == attempts[1..][i - 1];
      rest
  }

  /** A mismatched pair of reads is never decoded: the result comes from a later attempt. */
  lemma {:induction false} MismatchRetries(attempts: seq<ReadAttempt>, mode: ClockMode)
    requires |attempts| > 0 && !Consistent(attempts[0])
    ensures GetCurrentTime(attempts, mode) == GetCurrentTime(attempts[1..], mode)
  {
  }

  /** A 24-hour BCD clock decodes the BCD encoding of every field back to itself. */
  lemma DecodeBcd24Hour(t: TimeExpanded)
    requires t.nanoseconds == 0 && t.seconds < 60 && t.minutes < 60 && t.hours < 24
    requires t.day < 100 && t.month < 100 && 2000 <= t.year < 2100
    ensures DecodeTime(CmosSnapshot(EncodeBcdByte(t.seconds), EncodeBcdByte(t.minutes),
                                    EncodeBcdByte(t.hours), EncodeBcdByte(t.day),
                                    EncodeBcdByte(t.month), EncodeBcdByte(t.year - 2000)),
                       ClockMode(true, false)) == t
  {
    BcdRoundTrip(t.seconds);
    BcdRoundTrip(t.minutes);
    BcdRoundTrip(t.hours);
    BcdRoundTrip(t.day);
    BcdRoundTrip(t.month);
    BcdRoundTrip(t.year - 2000);
  }
}
