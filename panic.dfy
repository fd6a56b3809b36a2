/** panic_convert_value (kernel/klib/panic/panic.cpp): format a 64-bit value as
    "0x" followed by sixteen upper-case hexadecimal digits. */
module Panic {
  import opened Common

  function Pow16(n: nat): (r: nat)
    ensures r >= 1
  {
    if n == 0 then 1 else 16 * Pow16(n - 1)
  }

  /** The character for one nibble: '0'..'9', then 'A'..'F'. */
  function HexDigit(d: nat): (c: char)
    requires d < 16
    ensures d < 10 ==> c == '0' + d as char
    ensures d >= 10 ==> c == 'A' + (d - 10) as char
  {
    if d < 10 then '0' + d as char else 'A' + (d - 10) as char
  }

  predicate IsHexDigitChar(c: char)
  {
    '0' <= c <= '9' || 'A' <= c <= 'F'
  }

  /** Value of an upper-case hexadecimal digit character. */
  function HexValue(c: char): (d: nat)
    requires IsHexDigitChar(c)
    ensures d < 16
  {
    if c <= '9' then (c - '0') as nat else (c - 'A') as nat + 10
  }

  lemma HexDigitInverse(d: nat)
    requires d < 16
    ensures IsHexDigitChar(HexDigit(d)) && HexValue(HexDigit(d)) == d
  {
  }

  /** The low n nibbles of v, most significant first. */
  function HexDigits(v: nat, n: nat): (s: string)
    ensures |s| == n
  {
    if n == 0 then [] else HexDigits(v / 16, n - 1) + [HexDigit(v % 16)]
  }

  /** Reading a string of hexadecimal digits, most significant first. */
  function ParseHex(s: string): nat
    requires forall i :: 0 <= i < |s| ==> IsHexDigitChar(s[i])
  {
    if s == [] then 0 else 16 * ParseHex(s[..|s| - 1]) + HexValue(s[|s| - 1])
  }

  /** The text panic_convert_value writes. */
  function HexText(v: u64): (s: string)
    ensures |s| == 18 && s[..2] == "0x"
  {
    "0x" + HexDigits(v, 16)
  }

  lemma {:induction false} HexDigitsAreHex(v: nat, n: nat)
    ensures HexDigitsAreHexFact(v, n)
  {
    if n > 0 {
      HexDigitsAreHex(v / 16, n - 1);
      HexDigitInverse(v % 16);
      var s := HexDigits(v, n);
      assert forall i :: 0 <= i < n - 1 ==> s[i] == HexDigits(v / 16, n - 1)[i];
    }
  }

  predicate HexDigitsAreHexFact(v: nat, n: nat)
  {
    forall i :: 0 <= i < n ==> IsHexDigitChar(HexDigits(v, n)[i])
  }

  /** Reading n digits back gives the value when it fits in n nibbles. */
  lemma {:induction false} ParseHexDigits(v: nat, n: nat)
    requires v < Pow16(n)
    ensures HexDigitsAreHexFact(v, n) && ParseHex(HexDigits(v, n)) == v
  {
    HexDigitsAreHex(v, n);
    if n > 0 {
      var s := HexDigits(v, n);
      assert s[..n - 1] == HexDigits(v / 16, n - 1);
      ParseHexDigits(v / 16, n - 1);
      HexDigitInverse(v % 16);
    }
  }

  lemma Pow16Is2To64()
    ensures Pow16(16) == 0x1_0000_0000_0000_0000
  {
    assert Pow16(1) == 0x10;
    assert Pow16(2) == 0x100;
    assert Pow16(3) == 0x1000;
    assert Pow16(4) == 0x1_0000;
    assert Pow16(5) == 0x10_0000;
    assert Pow16(6) == 0x100_0000;
    assert Pow16(7) == 0x1000_0000;
    assert Pow16(8) == 0x1_0000_0000;
    assert Pow16(9) == 0x10_0000_0000;
    assert Pow16(10) == 0x100_0000_0000;
    assert Pow16(11) == 0x1000_0000_0000;
    assert Pow16(12) == 0x1_0000_0000_0000;
    assert Pow16(13) == 0x10_0000_0000_0000;
    assert Pow16(14) == 0x100_0000_0000_0000;
    assert Pow16(15) == 0x1000_0000_0000_0000;
  }

  /** The sixteen digits after "0x" read back as the original value. */
  lemma HexTextRoundTrip(v: u64)
    ensures HexDigitsAreHexFact(v, 16)
    ensures ParseHex(HexText(v)[2..]) == v
  {
    Pow16Is2To64();
    ParseHexDigits(v, 16);
    assert HexText(v)[2..] == HexDigits(v, 16);
  }

  /** Every character after the prefix is an upper-case hexadecimal digit. */
  lemma HexTextIsUpperHex(v: u64)
    ensures forall i :: 2 <= i < 18 ==> IsHexDigitChar(HexText(v)[i])
  {
    HexDigitsAreHex(v, 16);
    assert forall i :: 2 <= i < 18 ==> HexText(v)[i] == HexDigits(v, 16)[i - 2];
  }

  /** The last of n digits is the lowest. */
  lemma HexDigitsStep(v: nat, n: nat)
    requires n > 0
    ensures HexDigits(v, n) == HexDigits(v / 16, n - 1) + [HexDigit(v % 16)]
  {
  }

  /** The memcpy of the "0x0000000000000000" template into buf[0..18). */
  method CopyTemplate(buf: array<char>)
    requires buf.Length >= 18
    modifies buf
    ensures buf[..18] == "0x0000000000000000"
    ensures buf[18..] == old(buf[18..])
  {
    var template := "0x0000000000000000";
    forall k | 0 <= k < 18 {
      buf[k] := template[k];
    }
  }

  /** panic_convert_value: writes exactly buf[0..18) and nothing else. */
  method PanicConvertValue(buf: array<char>, value: u64)
    requires buf.Length >= 18
    modifies buf
    ensures buf[..18] == HexText(value)
    ensures buf[18..] == old(buf[18..])
  {
    CopyTemplate(buf);
    assert buf[0] == buf[..18][0] && buf[1] == buf[..18][1];
    var v: nat := value;
    var i := 0;
    ghost var digits: string := [];
    while i < 16
      invariant 0 <= i <= 16 && |digits| == i
      invariant buf[0] == '0' && buf[1] == 'x'
      invariant forall k | 18 - i <= k < 18 :: buf[k] == digits[k - (18 - i)]
      invariant HexDigits(value, 16) == HexDigits(v, 16 - i) + digits
      invariant forall k | 18 <= k < buf.Length :: buf[k] == old(buf[k])
    {
      var temp := v % 16;
      HexDigitsStep(v, 16 - i);
      buf[17 - i] := HexDigit(temp);
      digits := [HexDigit(temp)] + digits;
      v := v / 16;
      i := i + 1;
    }
    assert buf[2..18] == digits;
    assert buf[..18] == buf[..2] + buf[2..18];
  }
}
