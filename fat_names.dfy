/** The names of fat_folder.cpp: which characters a FAT name may hold, the
    11-byte short form of an 8.3 name, the long-name directory entries of
    any other name, the short-name checksum that ties the two together and
    the numeric tail of a generated short name. A name is the bytes of its
    kl_string; a directory entry is its 32 bytes on disk. */
module FatNames {
  import opened Common

  const DOT: byte := 0x2E
  const SPACE: byte := 0x20
  const TILDE: byte := 0x7E

  // ---------------------------------------------------------------------------
  // Characters.
  // ---------------------------------------------------------------------------

  /** A name byte as the uint16_t character is_valid_filename_char is given:
      char is signed, so bytes from 0x80 up are sign-extended. */
  function Widen(b: byte): (ch: u16)
    ensures b < 0x80 ==> ch == b
    ensures b >= 0x80 ==> ch == 0xFF00 + b
  {
    if b < 0x80 then b else 0xFF00 + b
  }

  /** The punctuation a short name may hold. */
  predicate IsShortPunctuation(ch: u16)
  {
    ch in {'$' as int, '%' as int, '\'' as int, '-' as int, '_' as int, '@' as int, '~' as int, '`' as int,
           '!' as int, '(' as int, ')' as int, '{' as int, '}' as int, '^' as int, '#' as int, '&' as int}
  }

  /** The characters only a long name may hold. */
  predicate IsLongOnly(ch: u16)
  {
    ch in {'+' as int, ',' as int, ';' as int, '=' as int, '[' as int, ']' as int, ' ' as int, '.' as int}
  }

  /** is_valid_filename_char: anything above 127, digits, letters, the
      short-name punctuation and, in a long name only, + , ; = [ ] space
      and dot. */
  predicate IsValidFilenameChar(ch: u16, longFilename: bool)
  {
    || ch > 127
    || ('0' as int <= ch <= '9' as int)
    || ('a' as int <= ch <= 'z' as int)
    || ('A' as int <= ch <= 'Z' as int)
    || IsShortPunctuation(ch)
    || (longFilename && IsLongOnly(ch))
  }

  /** A long name accepts exactly the short-name characters and the eight
      long-only ones, none of which a short name accepts. */
  lemma LongNamesAllowMore(ch: u16)
    ensures IsValidFilenameChar(ch, true) <==> IsValidFilenameChar(ch, false) || IsLongOnly(ch)
    ensures IsLongOnly(ch) ==> !IsValidFilenameChar(ch, false)
  {
  }

  /** The byte as the upper-case letter, when it is a lower-case one. */
  function Upper(b: byte): byte
  {
    if 'a' as int <= b <= 'z' as int then b - 'a' as int + 'A' as int else b
  }

  function UpperAll(s: seq<byte>): (u: seq<byte>)
    ensures |u| == |s| && forall k | 0 <= k < |s| :: u[k] == Upper(s[k])
  {
    seq(|s|, k requires 0 <= k < |s| => Upper(s[k]))
  }

  predicate IsShortChar(b: byte)
  {
    IsValidFilenameChar(Widen(b), false)
  }

  predicate AllShortChars(s: seq<byte>)
  {
    forall k | 0 <= k < |s| :: IsShortChar(s[k])
  }

  /** What a short name on disk holds: padding spaces and valid characters,
      none of them a lower-case letter. */
  predicate IsShortNameByte(b: byte)
  {
    b == SPACE || (IsShortChar(b) && !('a' as int <= b <= 'z' as int))
  }

  // ---------------------------------------------------------------------------
  // Short names.
  // ---------------------------------------------------------------------------

  /** The position of the first dot at or after from. */
  function FirstDot(name: seq<byte>, from: nat): (p: Option<nat>)
    decreases |name| - from
    ensures p.Some? ==>
      && from <= p.value < |name| && name[p.value] == DOT
      && forall k | from <= k < p.value :: name[k] != DOT
    ensures p.None? ==> forall k | from <= k < |name| :: name[k] != DOT
  {
    if from >= |name| then None
    else if name[from] == DOT then Some(from)
    else FirstDot(name, from + 1)
  }

  /** A part of an 8.3 name in its field: upper-cased and padded with
      spaces to the field's width. */
  function Field(part: seq<byte>, width: nat): (f: seq<byte>)
    requires |part| <= width
    ensures |f| == width
    ensures forall k | 0 <= k < |part| :: f[k] == Upper(part[k])
    ensures forall k | |part| <= k < width :: f[k] == SPACE
  {
    seq(width, k requires 0 <= k < width => if k < |part| then Upper(part[k]) else SPACE)
  }

  datatype Parts = Parts(base: seq<byte>, ext: seq<byte>)

  /** The split of populate_short_name at the first dot: at most 8 bytes
      before it and 3 after, or a name of at most 8 bytes with no dot. */
  function Split83(name: seq<byte>): (r: Option<Parts>)
    ensures r.Some? ==> |r.value.base| <= 8 && |r.value.ext| <= 3
  {
    match FirstDot(name, 0)
    case None => if |name| > 8 then None else Some(Parts(name, []))
    case Some(p) =>
      if p > 8 || |name| - (p + 1) > 3 then None else Some(Parts(name[..p], name[p + 1..]))
  }

  /** The short name populate_short_name makes of a name, if the name is
      already in 8.3 form: the base in bytes 0 to 7 and the extension in
      bytes 8 to 10, upper-cased and padded with spaces. */
  function ShortName(name: seq<byte>): (r: Option<seq<byte>>)
    ensures |name| > 12 ==> r.None?
    ensures FirstDot(name, 0).None? && |name| > 8 ==> r.None?
    ensures FirstDot(name, 0).Some? && FirstDot(name, 0).value > 8 ==> r.None?
    ensures FirstDot(name, 0).Some? && |name| - FirstDot(name, 0).value - 1 > 3 ==> r.None?
    ensures (exists k | 0 <= k < |name| :: !IsShortChar(name[k]) && FirstDot(name, 0) != Some(k)) ==> r.None?
    ensures r.Some? ==> |r.value| == 11 && forall k | 0 <= k < 11 :: IsShortNameByte(r.value[k])
  {
    if |name| > 12 then None
    else match Split83(name)
      case None => None
      case Some(parts) =>
        if AllShortChars(parts.base) && AllShortChars(parts.ext) then
          ShortLayout(parts);
          Some(Field(parts.base, 8) + Field(parts.ext, 3))
        else
          InvalidCharRejected(name, parts);
          None
  }

  /** The dot populate_short_name finds as written: kl_string::find never
      tries the last position, so a dot there goes unseen; any other first
      dot is found. */
  function FirstDotAsWritten(name: seq<byte>): (p: Option<nat>)
    ensures p.Some? ==> p == FirstDot(name, 0)
    ensures p.None? && FirstDot(name, 0).Some? ==> FirstDot(name, 0).value == |name| - 1
  {
    if |name| == 0 then None else FirstDot(name[..|name| - 1], 0)
  }

  /** populate_short_name as written, splitting at the dot that find
      reports. It accepts only what the intended split accepts, and differs
      from it only on names ending in a dot. */
  function ShortNameAsWritten(name: seq<byte>): (r: Option<seq<byte>>)
    ensures r.Some? ==> r == ShortName(name)
    ensures |name| == 0 || name[|name| - 1] != DOT ==> r == ShortName(name)
  {
    if |name| > 12 then None
    else
      var parts :=
        match FirstDotAsWritten(name)
        case None => if |name| > 8 then None else Some(Parts(name, []))
        case Some(p) =>
          if p > 8 || |name| - (p + 1) > 3 then None else Some(Parts(name[..p], name[p + 1..]));
      if parts.Some? && AllShortChars(parts.value.base) && AllShortChars(parts.value.ext) then
        Some(Field(parts.value.base, 8) + Field(parts.value.ext, 3))
      else None
  }

  /** "ABC." is refused as written: the trailing dot is not found, stays in
      the base and is no short-name character. Split at that dot, it is the
      short name "ABC" with an empty extension. */
  lemma TrailingDotRefusedAsWritten()
    ensures var name := ['A' as int, 'B' as int, 'C' as int, DOT];
      && ShortNameAsWritten(name).None?
      && ShortName(name).Some?
      && ShortName(name).value[..4] == ['A' as int, 'B' as int, 'C' as int, SPACE]
  {
    var name := ['A' as int, 'B' as int, 'C' as int, DOT];
    assert FirstDot(name, 0) == Some(3) by {
      assert name[0] != DOT && name[1] != DOT && name[2] != DOT && name[3] == DOT;
    }
    assert !IsShortChar(name[3]);
  }

  lemma ShortLayout(parts: Parts)
    requires |parts.base| <= 8 && |parts.ext| <= 3
    requires AllShortChars(parts.base) && AllShortChars(parts.ext)
    ensures forall k | 0 <= k < 11 :: IsShortNameByte((Field(parts.base, 8) + Field(parts.ext, 3))[k])
  {
    forall k | 0 <= k < 11
      ensures IsShortNameByte((Field(parts.base, 8) + Field(parts.ext, 3))[k])
    {
      if k < |parts.base| {
        UpperKeepsShort(parts.base[k]);
      } else if 8 <= k < 8 + |parts.ext| {
        UpperKeepsShort(parts.ext[k - 8]);
      }
    }
  }

  lemma UpperKeepsShort(b: byte)
    requires IsShortChar(b)
    ensures IsShortNameByte(Upper(b))
  {
  }

  /** Every byte of a name accepted by Split83 other than its first dot is
      in the base or in the extension. */
  lemma InvalidCharRejected(name: seq<byte>, parts: Parts)
    requires Split83(name) == Some(parts)
    requires !(AllShortChars(parts.base) && AllShortChars(parts.ext))
    ensures exists k | 0 <= k < |name| :: !IsShortChar(name[k]) && FirstDot(name, 0) != Some(k)
  {
    var k: nat;
    if !AllShortChars(parts.base) {
      var j :| 0 <= j < |parts.base| && !IsShortChar(parts.base[j]);
      k := PlaceInName(name, parts, j, false);
    } else {
      var j :| 0 <= j < |parts.ext| && !IsShortChar(parts.ext[j]);
      k := PlaceInName(name, parts, j, true);
    }
  }

  /** Where byte j of the base, or of the extension, sits in the name. */
  lemma PlaceInName(name: seq<byte>, parts: Parts, j: nat, inExt: bool) returns (k: nat)
    requires Split83(name) == Some(parts)
    requires if inExt then j < |parts.ext| else j < |parts.base|
    ensures k < |name| && FirstDot(name, 0) != Some(k)
    ensures name[k] == if inExt then parts.ext[j] else parts.base[j]
  {
    var dot := FirstDot(name, 0);
    if inExt {
      k := dot.value + 1 + j;
    } else {
      k := j;
    }
  }

  /** The bytes of s without its trailing spaces. */
  function TrimEnd(s: seq<byte>): (t: seq<byte>)
    ensures |t| <= |s| && t == s[..|t|]
  {
    if s != [] && s[|s| - 1] == SPACE then TrimEnd(s[..|s| - 1]) else s
  }

  /** The name an 11-byte short name reads as: the base, then a dot and the
      extension when there is one. */
  function ShortNameText(r: seq<byte>): seq<byte>
    requires |r| == 11
  {
    var base := TrimEnd(r[..8]);
    var ext := TrimEnd(r[8..]);
    if ext == [] then base else base + [DOT] + ext
  }

  /** Padding a part with spaces and trimming them off again gives the
      upper-cased part back, as a short name holds no spaces. */
  lemma {:induction false} TrimField(part: seq<byte>, width: nat)
    requires |part| <= width && AllShortChars(part)
    ensures TrimEnd(Field(part, width)) == UpperAll(part)
    decreases width
  {
    var f := Field(part, width);
    if width == |part| {
      assert f == UpperAll(part);
      if part != [] {
        assert f[|f| - 1] != SPACE;
      }
    } else {
      assert f[..width - 1] == Field(part, width - 1);
      TrimField(part, width - 1);
    }
  }

  /** The fields of a base and an extension read back as the base, then a
      dot and the extension when there is one, in upper case. */
  lemma TextOfFields(base: seq<byte>, ext: seq<byte>)
    requires |base| <= 8 && |ext| <= 3 && AllShortChars(base) && AllShortChars(ext)
    ensures ShortNameText(Field(base, 8) + Field(ext, 3)) ==
      if ext == [] then UpperAll(base) else UpperAll(base) + [DOT] + UpperAll(ext)
  {
    var r := Field(base, 8) + Field(ext, 3);
    assert r[..8] == Field(base, 8) && r[8..] == Field(ext, 3);
    TrimField(base, 8);
    TrimField(ext, 3);
  }

  /** An accepted name reads back as itself in upper case, unless it ends in
      a dot (the dot of an empty extension is not kept). */
  lemma ShortNameRoundTrip(name: seq<byte>)
    requires ShortName(name).Some?
    requires name == [] || name[|name| - 1] != DOT
    ensures ShortNameText(ShortName(name).value) == UpperAll(name)
  {
    var parts := Split83(name).value;
    TextOfFields(parts.base, parts.ext);
    match FirstDot(name, 0)
    case None =>
    case Some(p) =>
      UpperAround(name, p);
  }

  /** Upper-casing a name with a dot at p upper-cases the two sides. */
  lemma UpperAround(name: seq<byte>, p: nat)
    requires p < |name| && name[p] == DOT
    ensures UpperAll(name) == UpperAll(name[..p]) + [DOT] + UpperAll(name[p + 1..])
  {
    assert name == name[..p] + [DOT] + name[p + 1..];
    UpperAllConcat(name[..p], [DOT]);
    UpperAllConcat(name[..p] + [DOT], name[p + 1..]);
    assert UpperAll([DOT]) == [DOT];
  }

  lemma UpperAllConcat(a: seq<byte>, b: seq<byte>)
    ensures UpperAll(a + b) == UpperAll(a) + UpperAll(b)
  {
    assert forall k | 0 <= k < |a| + |b| :: UpperAll(a + b)[k] == (UpperAll(a) + UpperAll(b))[k];
  }

  /** A base and an extension in short-name characters, joined by a dot,
      are accepted and laid out in their fields. */
  lemma ShortNameOfParts(base: seq<byte>, ext: seq<byte>)
    requires |base| <= 8 && |ext| <= 3 && AllShortChars(base) && AllShortChars(ext)
    ensures ShortName(base + [DOT] + ext) == Some(Field(base, 8) + Field(ext, 3))
    ensures ShortName(base) == Some(Field(base, 8) + Field([], 3))
  {
    var name := base + [DOT] + ext;
    assert forall k | 0 <= k < |base| :: name[k] == base[k] && base[k] != DOT;
    FirstDotIs(name, |base|);
    assert name[..|base|] == base && name[|base| + 1..] == ext;
    assert FirstDot(base, 0).None?;
  }

  lemma FirstDotIs(name: seq<byte>, p: nat)
    requires p < |name| && name[p] == DOT && forall k | 0 <= k < p :: name[k] != DOT
    ensures FirstDot(name, 0) == Some(p)
  {
    assert name[p] == DOT;
  }

  /** Letter case makes no difference: a name and its upper-case form give
      the same short name. */
  lemma ShortNameIgnoresCase(name: seq<byte>)
    ensures ShortName(UpperAll(name)) == ShortName(name)
  {
    var u := UpperAll(name);
    assert forall k | 0 <= k < |name| :: (u[k] == DOT <==> name[k] == DOT);
    FirstDotSame(name, u);
    match FirstDot(name, 0)
    case None =>
      UpperPart(name, u, name, u);
    case Some(p) =>
      if p <= 8 && |name| - (p + 1) <= 3 {
        assert u[..p] == UpperAll(name[..p]);
        assert u[p + 1..] == UpperAll(name[p + 1..]);
        UpperPart(name, u, name[..p], u[..p]);
        UpperPart(name, u, name[p + 1..], u[p + 1..]);
      }
  }

  lemma FirstDotSame(name: seq<byte>, u: seq<byte>)
    requires |u| == |name| && forall k | 0 <= k < |name| :: (u[k] == DOT <==> name[k] == DOT)
    ensures FirstDot(u, 0) == FirstDot(name, 0)
  {
    match FirstDot(name, 0)
    case None =>
    case Some(p) =>
      FirstDotIs(u, p);
  }

  /** Upper-casing a part keeps its validity and its field. */
  lemma UpperPart(name: seq<byte>, u: seq<byte>, part: seq<byte>, upart: seq<byte>)
    requires upart == UpperAll(part)
    ensures AllShortChars(upart) == AllShortChars(part)
    ensures |part| <= 11 ==> forall w | |part| <= w <= 11 :: Field(upart, w) == Field(part, w)
  {
    assert forall k | 0 <= k < |part| :: IsShortChar(upart[k]) == IsShortChar(part[k]);
    forall w | |part| <= w <= 11 && |part| <= 11
      ensures Field(upart, w) == Field(part, w)
    {
      assert forall k | 0 <= k < w :: Field(upart, w)[k] == Field(part, w)[k];
    }
  }

  /** populate_short_name: the short form of an 8.3 name written to the
      first 11 bytes of the buffer, with a terminating zero after it. */
  method PopulateShortName(name: seq<byte>, shortName: array<byte>) returns (ok: bool)
    requires shortName.Length >= 12
    modifies shortName
    ensures ok == ShortName(name).Some?
    ensures ok ==> shortName[..11] == ShortName(name).value && shortName[11] == 0
  {
    if |name| > 12 {
      return false;
    }
    var base, ext;
    var dot := FirstDot(name, 0);
    if dot.None? {
      if |name| > 8 {
        return false;
      }
      base, ext := name, [];
    } else if dot.value > 8 {
      return false;
    } else {
      base, ext := name[..dot.value], name[dot.value + 1..];
      if |base| > 8 || |ext| > 3 {
        return false;
      }
    }
    forall k | 0 <= k < 11 {
      shortName[k] := SPACE;
    }
    shortName[11] := 0;
    ok := CopyPart(base, shortName, 0, 8);
    if ok {
      ok := CopyPart(ext, shortName, 8, 3);
    }
    if ok {
      assert shortName[..11] == Field(base, 8) + Field(ext, 3);
    }
  }

  /** One of populate_short_name's loops: the part, upper-cased, into the
      buffer from at, stopping at the first invalid character. */
  method CopyPart(part: seq<byte>, shortName: array<byte>, at: nat, width: nat) returns (ok: bool)
    requires |part| <= width && at + width <= 11 < shortName.Length
    requires forall k | at <= k < at + width :: shortName[k] == SPACE
    modifies shortName
    ensures ok == AllShortChars(part)
    ensures forall k | 0 <= k < shortName.Length && !(at <= k < at + width) :: shortName[k] == old(shortName[k])
    ensures ok ==> shortName[at..at + width] == Field(part, width)
  {
    ok := true;
    var i := 0;
    while i < |part|
      invariant 0 <= i <= |part|
      invariant forall k | 0 <= k < i :: IsShortChar(part[k])
      invariant forall k | 0 <= k < shortName.Length && !(at <= k < at + i) :: shortName[k] == old(shortName[k])
      invariant forall k | 0 <= k < i :: shortName[at + k] == Upper(part[k])
    {
      if !IsShortChar(part[i]) {
        return false;
      }
      shortName[at + i] := Upper(part[i]);
      i := i + 1;
    }
    assert forall k | 0 <= k < width :: shortName[at..at + width][k] == Field(part, width)[k];
  }

  // ---------------------------------------------------------------------------
  // Long names.
  // ---------------------------------------------------------------------------

  /** The attribute byte (offset 11) of a long-name entry. */
  const LFN_ATTRIBUTE: byte := 0x0F
  /** The flag in the order byte of the entry holding a name's last part. */
  const LAST_LONG_ENTRY: byte := 0x40
  /** The long-name entries get_dir_entry has room for. */
  const MAX_LONG_ENTRIES: nat := 20

  /** The offset of character s (0 to 12) of a long-name entry: five from
      byte 1, six from byte 14 and two from byte 28, two bytes each, low
      byte first. */
  function CharOffset(s: nat): (off: nat)
    requires s < 13
    ensures 1 <= off && off + 1 < 32 && off != 11 && off + 1 != 11 && off != 13 && off + 1 != 13
    ensures off != 26 && off + 1 != 26 && off != 12 && off + 1 != 27
  {
    if s < 5 then 1 + 2 * s else if s < 11 then 14 + 2 * (s - 5) else 28 + 2 * (s - 11)
  }

  /** The character whose bytes include byte k of a long-name entry. */
  function SlotOf(k: nat): (s: Option<nat>)
    ensures s.Some? ==> s.value < 13 && (k == CharOffset(s.value) || k == CharOffset(s.value) + 1)
  {
    if 1 <= k < 11 then Some((k - 1) / 2)
    else if 14 <= k < 26 then Some(5 + (k - 14) / 2)
    else if 28 <= k < 32 then Some(11 + (k - 28) / 2)
    else None
  }

  lemma SlotOfOffset(s: nat)
    requires s < 13
    ensures SlotOf(CharOffset(s)) == Some(s) && SlotOf(CharOffset(s) + 1) == Some(s)
  {
  }

  /** Character s of a long-name entry. */
  function LfnChar(e: seq<byte>, s: nat): u16
    requires |e| == 32 && s < 13
  {
    e[CharOffset(s)] as int + 256 * e[CharOffset(s) + 1] as int
  }

  /** The long-name entry with order byte order and the given 13
      characters; the checksum byte is left 0. */
  function EntryBytes(order: byte, chars: seq<u16>): (e: seq<byte>)
    requires |chars| == 13
    ensures |e| == 32 && e[0] == order && e[11] == LFN_ATTRIBUTE && e[13] == 0
  {
    seq(32, k requires 0 <= k < 32 =>
      if k == 0 then order
      else if k == 11 then LFN_ATTRIBUTE
      else match SlotOf(k)
        case Some(s) => if k == CharOffset(s) then chars[s] % 256 else chars[s] / 256
        case None => 0)
  }

  /** The characters of an entry are the ones it was built from. */
  lemma EntryBytesChars(order: byte, chars: seq<u16>, s: nat)
    requires |chars| == 13 && s < 13
    ensures LfnChar(EntryBytes(order, chars), s) == chars[s]
  {
    SlotOfOffset(s);
  }

  /** Writing character s of an entry. */
  function SetChar(e: seq<byte>, s: nat, ch: u16): (r: seq<byte>)
    requires |e| == 32 && s < 13
    ensures |r| == 32 && r[0] == e[0] && r[13] == e[13]
  {
    e[CharOffset(s) := ch % 256][CharOffset(s) + 1 := ch / 256]
  }

  lemma SetCharOfEntry(order: byte, chars: seq<u16>, s: nat, ch: u16)
    requires |chars| == 13 && s < 13
    ensures SetChar(EntryBytes(order, chars), s, ch) == EntryBytes(order, chars[s := ch])
  {
    SlotOfOffset(s);
    var a := SetChar(EntryBytes(order, chars), s, ch);
    var b := EntryBytes(order, chars[s := ch]);
    forall k | 0 <= k < 32
      ensures a[k] == b[k]
    {
      if k != CharOffset(s) && k != CharOffset(s) + 1 && SlotOf(k).Some? {
        assert SlotOf(k).value != s;
      }
    }
  }

  /** The number of long-name entries a name of n characters takes. */
  function EntryCount(n: nat): (num: nat)
    ensures 13 * (num - 1) < n <= 13 * num || (n == 0 && num == 0)
  {
    n / 13 + (if n % 13 != 0 then 1 else 0)
  }

  /** Which character of the name character s of entry c holds: the last
      entry holds the first 13. */
  function NameIndex(num: nat, c: nat, s: nat): nat
    requires c < num
  {
    13 * (num - 1 - c) + s
  }

  /** Character s of entry c once the first i characters of the name are
      written: the character, or the 0xFFFF populate() fills in. */
  function WrittenChar(name: seq<byte>, num: nat, c: nat, i: nat, s: nat): u16
    requires c < num && i <= |name|
  {
    var j := NameIndex(num, c, s);
    if j < i then Widen(name[j]) else 0xFFFF
  }

  /** Character j of the name as the entries hold it: the character, the
      zero after the last one, then 0xFFFF. */
  function FinalChar(name: seq<byte>, j: nat): u16
  {
    if j < |name| then Widen(name[j]) else if j == |name| then 0 else 0xFFFF
  }

  /** Entry c while the name is being written: its order, not yet flagged. */
  function PartialEntry(name: seq<byte>, num: nat, c: nat, i: nat): (e: seq<byte>)
    requires c < num <= MAX_LONG_ENTRIES && i <= |name|
  {
    EntryBytes(num - c, seq(13, s requires 0 <= s < 13 => WrittenChar(name, num, c, i, s)))
  }

  /** Entry c of the name's long-name entries: order num - c, with the 0x40
      flag on entry 0, and 13 characters of the name. */
  function LongEntry(name: seq<byte>, num: nat, c: nat): (e: seq<byte>)
    requires c < num <= MAX_LONG_ENTRIES
  {
    EntryBytes(num - c + (if c == 0 then LAST_LONG_ENTRY else 0),
               seq(13, s requires 0 <= s < 13 => FinalChar(name, NameIndex(num, c, s))))
  }

  predicate IsLongChar(b: byte)
  {
    IsValidFilenameChar(Widen(b), true)
  }

  predicate AllLongChars(name: seq<byte>)
  {
    forall k | 0 <= k < |name| :: IsLongChar(name[k])
  }

  /** The long-name entries populate_long_name makes of a name, in the
      order they are stored in its buffer: entry 0 holds the end of the
      name and is flagged 0x40, the last entry holds the first 13
      characters. Names that do not fit the 20 entries, the empty name and
      names with a character a long name may not hold have none. */
  function LongEntries(name: seq<byte>): (r: Option<seq<seq<byte>>>)
    ensures r.Some? <==> 1 <= |name| <= 13 * MAX_LONG_ENTRIES && AllLongChars(name)
    ensures r.Some? ==>
      && |r.value| == EntryCount(|name|) && 1 <= |r.value| <= MAX_LONG_ENTRIES
      && (forall c | 0 <= c < |r.value| :: |r.value[c]| == 32 && r.value[c][11] == LFN_ATTRIBUTE)
      && r.value[0][0] == |r.value| + LAST_LONG_ENTRY
      && (forall c | 1 <= c < |r.value| :: r.value[c][0] == |r.value| - c)
  {
    if 1 <= |name| <= 13 * MAX_LONG_ENTRIES && AllLongChars(name) then
      var num := EntryCount(|name|);
      Some(seq(num, c requires 0 <= c < num => LongEntry(name, num, c)))
    else None
  }

  /** The first buffer index populate_long_name writes, in its uint8_t
      arithmetic: one less than the number of entries. */
  function FirstLongEntryAsWritten(n: nat): byte
  {
    var num := (n / 13 % 256 + (if n % 13 != 0 then 1 else 0)) % 256;
    (num + 255) % 256
  }

  /** A name of 261 characters starts writing at index 20 of a 20-entry
      buffer, and the empty name at index 255. */
  lemma LongNameOverrunsBuffer()
    ensures FirstLongEntryAsWritten(261) == MAX_LONG_ENTRIES
    ensures FirstLongEntryAsWritten(0) == 255
  {
  }

  /** populate_long_name, corrected to refuse names that do not fit: the
      long-name entries of the name, in the buffer's first num entries. The
      checksum byte of each is left as it was. */
  method PopulateLongName(name: seq<byte>, entries: array<seq<byte>>) returns (ok: bool, num: nat)
    requires entries.Length == MAX_LONG_ENTRIES && forall c | 0 <= c < entries.Length :: |entries[c]| == 32
    modifies entries
    ensures forall c | 0 <= c < entries.Length :: |entries[c]| == 32
    ensures ok == LongEntries(name).Some?
    ensures ok ==>
      && num == |LongEntries(name).value|
      && (forall c | 0 <= c < num :: entries[c][13 := 0] == LongEntries(name).value[c])
      && (forall c | 0 <= c < num :: entries[c][13] == old(entries[c][13]))
  {
    if |name| == 0 || |name| > 13 * MAX_LONG_ENTRIES {
      return false, 0;
    }
    num := |name| / 13;
    var remainder := |name| % 13;
    if remainder != 0 {
      num := num + 1;
    }
    var cur := num - 1;
    BlankIsUnwritten(name, num, cur, entries[cur], 0);
    entries[cur] := Blank(entries[cur], 1);
    ok := WriteLongChars(name, entries, num);
    ghost var written := entries[..];
    entries[0] := entries[0][0 := OrFlag(entries[0][0])];
    if remainder != 0 {
      entries[0] := SetChar(entries[0], remainder, 0);
    }
    if ok {
      FirstEntryFinal(name, num, written[0]);
      forall c | 0 < c < num
        ensures entries[c][13 := 0] == LongEntries(name).value[c]
      {
        OtherEntriesFinal(name, num, c);
      }
    }
  }

  /** populate() on an entry, then its order and attribute: every
      character 0xFFFF; the checksum byte is not touched. */
  function Blank(e: seq<byte>, order: byte): (r: seq<byte>)
    requires |e| == 32
    ensures |r| == 32 && r[13] == e[13] && r[0] == order
  {
    EntryBytes(order, seq(13, s requires 0 <= s < 13 => 0xFFFF))[13 := e[13]]
  }

  /** The 0x40 flag set in an order byte. */
  function OrFlag(b: byte): (r: byte)
    ensures b < LAST_LONG_ENTRY ==> r == b + LAST_LONG_ENTRY
  {
    if b / 0x40 % 2 == 1 then b else b + 0x40
  }

  /** A freshly populated entry holds none of the characters written so
      far. */
  lemma BlankIsUnwritten(name: seq<byte>, num: nat, c: nat, e: seq<byte>, i: nat)
    requires c < num <= MAX_LONG_ENTRIES && i <= |name| && i <= NameIndex(num, c, 0)
    requires |e| == 32
    ensures Blank(e, num - c)[13 := 0] == PartialEntry(name, num, c, i)
  {
    var chars := seq(13, s requires 0 <= s < 13 => WrittenChar(name, num, c, i, s));
    assert chars == seq(13, s requires 0 <= s < 13 => 0xFFFF);
  }

  /** Writing a character commutes with clearing the checksum byte. */
  lemma SetCharUnsummed(e: seq<byte>, s: nat, ch: u16)
    requires |e| == 32 && s < 13
    ensures SetChar(e, s, ch)[13 := 0] == SetChar(e[13 := 0], s, ch)
  {
  }

  /** Writing character i of the name into its entry turns that entry's
      state after i characters into its state after i + 1; the other
      entries are unaffected. */
  lemma WriteStep(name: seq<byte>, num: nat, c: nat, i: nat)
    requires c < num <= MAX_LONG_ENTRIES && i < |name|
    ensures NameIndex(num, c, 0) <= i < NameIndex(num, c, 0) + 13 ==>
      PartialEntry(name, num, c, i + 1) == SetChar(PartialEntry(name, num, c, i), i - NameIndex(num, c, 0), Widen(name[i]))
    ensures !(NameIndex(num, c, 0) <= i < NameIndex(num, c, 0) + 13) ==>
      PartialEntry(name, num, c, i + 1) == PartialEntry(name, num, c, i)
  {
    var before := seq(13, s requires 0 <= s < 13 => WrittenChar(name, num, c, i, s));
    var after := seq(13, s requires 0 <= s < 13 => WrittenChar(name, num, c, i + 1, s));
    if NameIndex(num, c, 0) <= i < NameIndex(num, c, 0) + 13 {
      var s := i - NameIndex(num, c, 0);
      assert after == before[s := Widen(name[i])];
      SetCharOfEntry(num - c, before, s, Widen(name[i]));
    } else {
      assert after == before;
    }
  }

  /** The entry a character goes to: the last entry for the first 13. */
  lemma EntryOfChar(n: nat, num: nat, i: nat)
    requires 1 <= n && num == EntryCount(n) && i < n
    ensures i / 13 < num && NameIndex(num, num - 1 - i / 13, 0) == 13 * (i / 13)
    ensures (i + 1) % 13 == 0 && i + 1 < n ==> (i + 1) / 13 < num
    ensures (i + 1) % 13 != 0 ==> (i + 1) / 13 == i / 13
    ensures (i + 1) % 13 == 0 ==> (i + 1) / 13 == i / 13 + 1
    ensures i == n - 1 ==> i / 13 == num - 1
  {
  }

  /** Entries cur to num - 1 of es hold the first i characters of the
      name. */
  ghost predicate Written(name: seq<byte>, num: nat, cur: nat, i: nat, es: seq<seq<byte>>)
    requires num <= MAX_LONG_ENTRIES && i <= |name| && |es| == MAX_LONG_ENTRIES
    requires forall c | 0 <= c < |es| :: |es[c]| == 32
  {
    forall c | cur <= c < num :: EntryWritten(name, num, c, i, es[c])
  }

  ghost predicate EntryWritten(name: seq<byte>, num: nat, c: nat, i: nat, e: seq<byte>)
    requires c < num <= MAX_LONG_ENTRIES && i <= |name| && |e| == 32
  {
    e[13 := 0] == PartialEntry(name, num, c, i)
  }

  /** Writing character i into entry cur, the entry it belongs to. */
  lemma WrittenAfterChar(name: seq<byte>, num: nat, cur: nat, i: nat, es: seq<seq<byte>>)
    requires 1 <= |name| <= 13 * MAX_LONG_ENTRIES && num == EntryCount(|name|) && i < |name|
    requires |es| == MAX_LONG_ENTRIES && forall c | 0 <= c < |es| :: |es[c]| == 32
    requires cur == num - 1 - i / 13 && Written(name, num, cur, i, es)
    ensures Written(name, num, cur, i + 1, es[cur := SetChar(es[cur], i % 13, Widen(name[i]))])
  {
    EntryOfChar(|name|, num, i);
    SetCharUnsummed(es[cur], i % 13, Widen(name[i]));
    var es' := es[cur := SetChar(es[cur], i % 13, Widen(name[i]))];
    forall c | cur <= c < num
      ensures es'[c][13 := 0] == PartialEntry(name, num, c, i + 1)
    {
      WriteStep(name, num, c, i);
    }
  }

  /** Moving to the entry before: populated, it holds none of the name. */
  lemma WrittenAfterBlank(name: seq<byte>, num: nat, cur: nat, i: nat, es: seq<seq<byte>>)
    requires num <= MAX_LONG_ENTRIES && i <= |name| && 0 < cur < num && i <= NameIndex(num, cur - 1, 0)
    requires |es| == MAX_LONG_ENTRIES && forall c | 0 <= c < |es| :: |es[c]| == 32
    requires Written(name, num, cur, i, es)
    ensures Written(name, num, cur - 1, i, es[cur - 1 := Blank(es[cur - 1], num - (cur - 1))])
  {
    BlankIsUnwritten(name, num, cur - 1, es[cur - 1], i);
  }

  /** One turn of populate_long_name's loop: character i written to entry
      cur, then the entry before populated after every 13th character but
      the last. */
  method WriteLongChar(name: seq<byte>, entries: array<seq<byte>>, num: nat, cur: nat, i: nat) returns (cur': nat)
    requires entries.Length == MAX_LONG_ENTRIES && forall c | 0 <= c < entries.Length :: |entries[c]| == 32
    requires 1 <= |name| <= 13 * MAX_LONG_ENTRIES && num == EntryCount(|name|) && i < |name|
    requires cur == num - 1 - i / 13 && Written(name, num, cur, i, entries[..])
    modifies entries
    ensures forall c | 0 <= c < entries.Length :: |entries[c]| == 32 && entries[c][13] == old(entries[c][13])
    ensures cur' == num - 1 - (if i + 1 < |name| then i + 1 else i) / 13
    ensures Written(name, num, cur', i + 1, entries[..])
  {
    EntryOfChar(|name|, num, i);
    ghost var es := entries[..];
    WrittenAfterChar(name, num, cur, i, es);
    entries[cur] := SetChar(entries[cur], i % 13, Widen(name[i]));
    assert entries[..] == es[cur := SetChar(es[cur], i % 13, Widen(name[i]))];
    cur' := cur;
    if (i + 1) % 13 == 0 && i != |name| - 1 {
      es := entries[..];
      WrittenAfterBlank(name, num, cur, i + 1, es);
      cur' := cur - 1;
      entries[cur'] := Blank(entries[cur'], num - cur');
      assert entries[..] == es[cur' := Blank(es[cur'], num - cur')];
    }
  }

  /** The loop of populate_long_name: each character checked and written
      to its entry, moving to the entry before after every 13th. */
  method WriteLongChars(name: seq<byte>, entries: array<seq<byte>>, num: nat) returns (ok: bool)
    requires entries.Length == MAX_LONG_ENTRIES && forall c | 0 <= c < entries.Length :: |entries[c]| == 32
    requires 1 <= |name| <= 13 * MAX_LONG_ENTRIES && num == EntryCount(|name|)
    requires entries[num - 1][13 := 0] == PartialEntry(name, num, num - 1, 0)
    modifies entries
    ensures forall c | 0 <= c < entries.Length :: |entries[c]| == 32 && entries[c][13] == old(entries[c][13])
    ensures ok == AllLongChars(name)
    ensures ok ==> forall c | 0 <= c < num :: entries[c][13 := 0] == PartialEntry(name, num, c, |name|)
  {
    var cur := num - 1;
    var i := 0;
    while i < |name|
      invariant 0 <= i <= |name|
      invariant forall k | 0 <= k < i :: IsLongChar(name[k])
      invariant cur == num - 1 - (if i < |name| then i else i - 1) / 13
      invariant forall c | 0 <= c < entries.Length :: |entries[c]| == 32 && entries[c][13] == old(entries[c][13])
      invariant Written(name, num, cur, i, entries[..])
    {
      if !IsLongChar(name[i]) {
        return false;
      }
      cur := WriteLongChar(name, entries, num, cur, i);
      i := i + 1;
    }
    ok := true;
  }

  /** Changing the order byte of an entry. */
  lemma ReorderEntry(order: byte, order': byte, chars: seq<u16>)
    requires |chars| == 13
    ensures EntryBytes(order, chars)[0 := order'] == EntryBytes(order', chars)
  {
    var a := EntryBytes(order, chars)[0 := order'];
    var b := EntryBytes(order', chars);
    forall k | 0 <= k < 32
      ensures a[k] == b[k]
    {
    }
  }

  /** After the loop every entry but entry 0 is final. */
  lemma OtherEntriesFinal(name: seq<byte>, num: nat, c: nat)
    requires 1 <= |name| <= 13 * MAX_LONG_ENTRIES && num == EntryCount(|name|) && 0 < c < num
    ensures PartialEntry(name, num, c, |name|) == LongEntry(name, num, c)
  {
    var written := seq(13, s requires 0 <= s < 13 => WrittenChar(name, num, c, |name|, s));
    var final := seq(13, s requires 0 <= s < 13 => FinalChar(name, NameIndex(num, c, s)));
    assert written == final;
  }

  /** Entry 0 becomes final once flagged and, when the last entry is not
      full, given the zero after the name. */
  lemma FirstEntryFinal(name: seq<byte>, num: nat, e0: seq<byte>)
    requires 1 <= |name| <= 13 * MAX_LONG_ENTRIES && num == EntryCount(|name|)
    requires |e0| == 32 && e0[13 := 0] == PartialEntry(name, num, 0, |name|)
    ensures
      var flagged := e0[0 := OrFlag(e0[0])];
      var ended := if |name| % 13 != 0 then SetChar(flagged, |name| % 13, 0) else flagged;
      ended[13 := 0] == LongEntry(name, num, 0)
  {
    var written := seq(13, s requires 0 <= s < 13 => WrittenChar(name, num, 0, |name|, s));
    var final := seq(13, s requires 0 <= s < 13 => FinalChar(name, NameIndex(num, 0, s)));
    assert e0[0] == e0[13 := 0][0] == num;
    var flagged := e0[0 := OrFlag(e0[0])];
    ReorderEntry(num, num + LAST_LONG_ENTRY, written);
    assert flagged[13 := 0] == e0[13 := 0][0 := num + LAST_LONG_ENTRY];
    if |name| % 13 != 0 {
      var r := |name| % 13;
      assert final == written[r := 0];
      EndedEntry(flagged, num + LAST_LONG_ENTRY, written, r);
    } else {
      assert written == final;
    }
  }

  /** Writing the zero after the name into an entry whose bytes, checksum
      aside, are known. */
  lemma EndedEntry(e: seq<byte>, order: byte, chars: seq<u16>, r: nat)
    requires |e| == 32 && |chars| == 13 && r < 13 && e[13 := 0] == EntryBytes(order, chars)
    ensures SetChar(e, r, 0)[13 := 0] == EntryBytes(order, chars[r := 0])
  {
    SetCharUnsummed(e, r, 0);
    SetCharOfEntry(order, chars, r, 0);
  }

  /** The name's characters as a sequence of entries holds them: the last
      entry's first. */
  function EntryChars(e: seq<byte>): (cs: seq<u16>)
    requires |e| == 32
    ensures |cs| == 13
  {
    seq(13, s requires 0 <= s < 13 => LfnChar(e, s))
  }

  function NameChars(es: seq<seq<byte>>): (cs: seq<u16>)
    requires forall c | 0 <= c < |es| :: |es[c]| == 32
    ensures |cs| == 13 * |es|
  {
    if es == [] then [] else EntryChars(es[|es| - 1]) + NameChars(es[..|es| - 1])
  }

  /** The characters before the first zero. */
  function UntilNul(cs: seq<u16>): seq<u16>
  {
    if cs == [] || cs[0] == 0 then [] else [cs[0]] + UntilNul(cs[1..])
  }

  /** The name a run of long-name entries spells. */
  function LongNameText(es: seq<seq<byte>>): seq<u16>
    requires forall c | 0 <= c < |es| :: |es[c]| == 32
  {
    UntilNul(NameChars(es))
  }

  function WidenAll(name: seq<byte>): (w: seq<u16>)
    ensures |w| == |name| && forall k | 0 <= k < |name| :: w[k] == Widen(name[k])
  {
    seq(|name|, k requires 0 <= k < |name| => Widen(name[k]))
  }

  /** The characters entry c of num holds, once final. */
  function FinalChars(name: seq<byte>, num: nat, c: nat): (cs: seq<u16>)
    requires c < num
    ensures |cs| == 13
  {
    seq(13, s requires 0 <= s < 13 => FinalChar(name, NameIndex(num, c, s)))
  }

  lemma LongEntryChars(name: seq<byte>, num: nat, c: nat)
    requires c < num <= MAX_LONG_ENTRIES
    ensures EntryChars(LongEntry(name, num, c)) == FinalChars(name, num, c)
  {
    forall t | 0 <= t < 13
      ensures EntryChars(LongEntry(name, num, c))[t] == FinalChars(name, num, c)[t]
    {
      EntryBytesChars(num - c + (if c == 0 then LAST_LONG_ENTRY else 0), FinalChars(name, num, c), t);
    }
  }

  /** The first m entries spell the characters from 13 * (num - m) on. */
  lemma {:induction false} NameCharsOfEntries(name: seq<byte>, es: seq<seq<byte>>, m: nat)
    requires m <= |es| && forall c | 0 <= c < |es| :: |es[c]| == 32
    requires forall c | 0 <= c < |es| :: EntryChars(es[c]) == FinalChars(name, |es|, c)
    ensures forall t | 0 <= t < 13 * m :: NameChars(es[..m])[t] == FinalChar(name, 13 * (|es| - m) + t)
  {
    if m > 0 {
      NameCharsOfEntries(name, es, m - 1);
      assert es[..m][..m - 1] == es[..m - 1];
      assert EntryChars(es[m - 1]) == FinalChars(name, |es|, m - 1);
    }
  }

  lemma {:induction false} UntilNulIs(cs: seq<u16>, p: seq<u16>)
    requires |p| <= |cs| && cs[..|p|] == p && (forall k | 0 <= k < |p| :: p[k] != 0)
    requires |p| == |cs| || cs[|p|] == 0
    ensures UntilNul(cs) == p
  {
    if p != [] {
      assert cs[1..][..|p| - 1] == p[1..];
      UntilNulIs(cs[1..], p[1..]);
    }
  }

  /** The entries of a name spell the name. */
  lemma LongNameRoundTrip(name: seq<byte>)
    requires LongEntries(name).Some?
    ensures LongNameText(LongEntries(name).value) == WidenAll(name)
  {
    var es := LongEntries(name).value;
    forall c | 0 <= c < |es|
      ensures EntryChars(es[c]) == FinalChars(name, |es|, c)
    {
      LongEntryChars(name, |es|, c);
    }
    NameCharsOfEntries(name, es, |es|);
    assert es[..|es|] == es;
    var cs := NameChars(es);
    assert forall k | 0 <= k < |name| :: IsLongChar(name[k]);
    assert cs[..|name|] == WidenAll(name);
    UntilNulIs(cs, WidenAll(name));
  }

  // ---------------------------------------------------------------------------
  // The short-name checksum.
  // ---------------------------------------------------------------------------

  /** The sum rotated one bit to the right. */
  function RotateRight(sum: byte): byte
  {
    (if sum % 2 == 1 then 0x80 else 0) + sum / 2
  }

  /** ChkSum of the FAT specification, continued from sum over s: rotate
      right, then add the next byte, modulo 256. */
  function ChkSumFrom(sum: byte, s: seq<byte>): byte
    decreases |s|
  {
    if s == [] then sum else ChkSumFrom((RotateRight(sum) + s[0]) % 256, s[1..])
  }

  function ChkSum(shortName: seq<byte>): byte
  {
    ChkSumFrom(0, shortName)
  }

  /** generate_short_name_checksum: ChkSum over the 11 bytes of a short
      name. */
  method GenerateShortNameChecksum(shortName: array<byte>) returns (sum: byte)
    requires shortName.Length >= 11
    ensures sum == ChkSum(shortName[..11])
  {
    sum := 0;
    var curChar := 11;
    var p := 0;
    while curChar != 0
      invariant 0 <= curChar <= 11 && p == 11 - curChar
      invariant ChkSumFrom(sum, shortName[p..11]) == ChkSum(shortName[..11])
    {
      assert shortName[p..11] == [shortName[p]] + shortName[p + 1..11];
      sum := (RotateRight(sum) + shortName[p]) % 256;
      p := p + 1;
      curChar := curChar - 1;
    }
  }

  /** Rotation loses nothing: the sum is recovered from its rotation. */
  lemma RotateRightInjective(a: byte, b: byte)
    requires a != b
    ensures RotateRight(a) != RotateRight(b)
  {
  }

  /** One step of the checksum sends different sums to different sums. */
  lemma StepInjective(a: byte, b: byte, s: seq<byte>)
    requires a != b
    ensures ChkSumFrom(a, s) != ChkSumFrom(b, s)
    decreases |s|
  {
    if s != [] {
      RotateRightInjective(a, b);
      StepInjective((RotateRight(a) + s[0]) % 256, (RotateRight(b) + s[0]) % 256, s[1..]);
    }
  }

  /** Changing any one byte of a short name changes its checksum. */
  lemma ChkSumSeesEveryByte(name: seq<byte>, k: nat, b: byte)
    requires k < |name| && name[k] != b
    ensures ChkSum(name[k := b]) != ChkSum(name)
  {
    var other := name[k := b];
    assert other[..k] == name[..k];
    var s := ChkSumFrom(0, name[..k]);
    ChkSumSplit(name, 0, k);
    ChkSumSplit(other, 0, k);
    ChangedStep(s, name[k..], other[k..]);
  }

  /** Sums over two strings that differ only in their first byte differ. */
  lemma ChangedStep(s: byte, a: seq<byte>, b: seq<byte>)
    requires |a| == |b| > 0 && a[0] != b[0] && a[1..] == b[1..]
    ensures ChkSumFrom(s, a) != ChkSumFrom(s, b)
  {
    StepInjective((RotateRight(s) + a[0]) % 256, (RotateRight(s) + b[0]) % 256, a[1..]);
  }

  lemma {:induction false} ChkSumSplit(s: seq<byte>, sum: byte, k: nat)
    requires k <= |s|
    ensures ChkSumFrom(sum, s) == ChkSumFrom(ChkSumFrom(sum, s[..k]), s[k..])
    decreases k
  {
    if k > 0 {
      assert s[..k][1..] == s[1..][..k - 1];
      assert s[k..] == s[1..][k - 1..];
      ChkSumSplit(s[1..], (RotateRight(sum) + s[0]) % 256, k - 1);
    }
  }

  // ---------------------------------------------------------------------------
  // Numeric tails.
  // ---------------------------------------------------------------------------

  /** The decimal digits of n, as "%d" prints them. */
  function Decimal(n: nat): (d: seq<byte>)
    ensures 1 <= |d| && forall k | 0 <= k < |d| :: '0' as int <= d[k] <= '9' as int
    ensures n < 10 ==> |d| == 1
    ensures n < 100 ==> |d| <= 2
    ensures n < 1000 ==> |d| <= 3
    ensures n < 10000 ==> |d| <= 4
    ensures n < 100000 ==> |d| <= 5
    ensures n < 1000000 ==> |d| <= 6
    ensures |d| > 1 ==> d[0] != '0' as int
  {
    if n < 10 then ['0' as int + n] else Decimal(n / 10) + ['0' as int + n % 10]
  }

  /** The number the digits stand for. */
  function DecimalValue(d: seq<byte>): int
  {
    if d == [] then 0 else 10 * DecimalValue(d[..|d| - 1]) + (d[|d| - 1] - '0' as int)
  }

  lemma {:induction false} DecimalRoundTrip(n: nat)
    ensures DecimalValue(Decimal(n)) == n
  {
    if n >= 10 {
      var d := Decimal(n);
      assert d[..|d| - 1] == Decimal(n / 10);
      DecimalRoundTrip(n / 10);
    }
  }

  /** Where the '~' goes: after the valid characters, moved left when the
      tail would not fit in the 8-byte base. */
  function TildeAt(numValidChars: nat, digits: nat): nat
    requires digits + 1 <= 8
  {
    if numValidChars + digits + 1 > 8 then 8 - (digits + 1) else numValidChars
  }

  /** add_numeric_tail as the source writes it: the number is copied with
      the zero that ends it. */
  function AddNumericTailAsWritten(name: seq<byte>, numValidChars: nat, suffix: nat): (r: seq<byte>)
    requires |name| == 11 && 1 <= numValidChars <= 8 && suffix < 1000000
    ensures |r| == 11
  {
    var d := Decimal(suffix);
    var v := TildeAt(numValidChars, |d|);
    name[..v] + [TILDE] + d + [0] + name[v + |d| + 2..]
  }

  /** With an 8-character base and suffix 1, the zero lands on the first
      byte of the extension. */
  lemma NumericTailClobbersExtension()
    ensures AddNumericTailAsWritten(['L' as int, 'O' as int, 'N' as int, 'G' as int, 'F' as int, 'I' as int,
                                     'L' as int, 'E' as int, 'T' as int, 'X' as int, 'T' as int], 8, 1)[8] == 0
  {
    assert Decimal(1) == ['1' as int];
  }

  /** add_numeric_tail (corrected to copy the digits only): a '~' after at
      most numValidChars characters of the base, then the digits of the
      suffix, all within the base; the extension is untouched. */
  function AddNumericTail(name: seq<byte>, numValidChars: nat, suffix: nat): (r: seq<byte>)
    requires |name| == 11 && 1 <= numValidChars <= 8 && suffix < 1000000
    ensures |r| == 11
    ensures var v := Min(numValidChars, 8 - |Decimal(suffix)| - 1);
      && r[..v] == name[..v] && r[v] == TILDE
      && r[v + 1..v + 1 + |Decimal(suffix)|] == Decimal(suffix)
      && v + 1 + |Decimal(suffix)| <= 8
      && r[v + 1 + |Decimal(suffix)|..] == name[v + 1 + |Decimal(suffix)|..]
    ensures r[8..] == name[8..]
  {
    var d := Decimal(suffix);
    var v := TildeAt(numValidChars, |d|);
    var r := name[..v] + [TILDE] + d + name[v + |d| + 1..];
    assert r[v + 1..v + 1 + |d|] == d;
    assert r[v + 1 + |d|..] == name[v + 1 + |d|..];
    assert r[8..] == name[8..];
    r
  }
}
