/** Key lookup and translation for the generic keyboard
    (kernel/devices/generic/gen_keyboard.cpp). */
module GenKeyboard {
  import opened Common

  /** key_props: whether the key is printable and the characters it produces
      without and with shift. */
  datatype KeyProps = KeyProps(printable: bool, normal: char, shifted: char)

  const BLANK_PROPS: KeyProps := KeyProps(false, 0 as char, 0 as char)

  /** special_keys: the modifier state at the time of the key press. */
  datatype SpecialKeys = SpecialKeys(
    leftShift: bool, rightShift: bool, leftControl: bool, rightControl: bool,
    leftAlt: bool, rightAlt: bool, printScreenStart: bool, leftGui: bool, rightGui: bool)

  /** A key-properties table with its tab_len entries; None is a null table. */
  type KeyTable = Option<seq<KeyProps>>

  /** keyb_get_key_props. tab_len is the length of the table, which its
      caller passes alongside it. */
  function GetKeyProps(key: byte, table: KeyTable, tabLen: u32): (r: KeyProps)
    requires table.Some? ==> tabLen <= |table.value|
  {
    if table.Some? && key < tabLen then table.value[key] else BLANK_PROPS
  }

  /** The lookup yields the table's entry when the key code is inside the
      table, and the blank entry for a null table or a code at or past tab_len. */
  lemma GetKeyPropsCases(key: byte, table: KeyTable, tabLen: u32)
    requires table.Some? ==> tabLen <= |table.value|
    ensures table.None? || key >= tabLen ==> GetKeyProps(key, table, tabLen) == BLANK_PROPS
    ensures table.Some? && key < tabLen ==> GetKeyProps(key, table, tabLen) == table.value[key]
  {
  }

  predicate Unprintable(m: SpecialKeys)
  {
    m.leftAlt || m.leftControl || m.printScreenStart || m.rightAlt || m.rightControl
  }

  /** keyb_translate_key: the character a key press produces, or 0. Alt,
      control or a print-screen sequence suppress the character; otherwise
      it is the table entry's shifted or plain character, as either shift
      key is down. The entry's printable flag is not consulted. */
  function TranslateKey(key: byte, modifiers: SpecialKeys, table: KeyTable, tabLen: u32): (c: char)
    requires table.Some? ==> tabLen <= |table.value|
    ensures c != 0 as char ==> !Unprintable(modifiers) && table.Some? && key < tabLen
    ensures !Unprintable(modifiers) && table.Some? && key < tabLen ==>
      c == (if modifiers.leftShift || modifiers.rightShift then table.value[key].shifted
            else table.value[key].normal)
  {
    var props := GetKeyProps(key, table, tabLen);
    if Unprintable(modifiers) then 0 as char
    else if modifiers.leftShift || modifiers.rightShift then props.shifted
    else props.normal
  }

  /** A key outside the table never produces a character. */
  lemma OutOfTableIsZero(key: byte, modifiers: SpecialKeys, table: KeyTable, tabLen: u32)
    requires table.Some? ==> tabLen <= |table.value|
    requires table.None? || key >= tabLen
    ensures TranslateKey(key, modifiers, table, tabLen) == 0 as char
  {
  }

  /** Either shift key gives the same character. */
  lemma ShiftSidesAgree(key: byte, modifiers: SpecialKeys, table: KeyTable, tabLen: u32)
    requires table.Some? ==> tabLen <= |table.value|
    ensures TranslateKey(key, modifiers.(leftShift := true, rightShift := false), table, tabLen) ==
            TranslateKey(key, modifiers.(leftShift := false, rightShift := true), table, tabLen)
  {
  }

  /** The GUI keys do not affect translation. */
  lemma GuiKeysIgnored(key: byte, modifiers: SpecialKeys, table: KeyTable, tabLen: u32, lg: bool, rg: bool)
    requires table.Some? ==> tabLen <= |table.value|
    ensures TranslateKey(key, modifiers.(leftGui := lg, rightGui := rg), table, tabLen) ==
            TranslateKey(key, modifiers, table, tabLen)
  {
  }
}
