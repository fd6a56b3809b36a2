/** The PS/2 keyboard's scancode-set-2 decoder
    (ps2_keyboard_device::handle_interrupt_slow in
    kernel/devices/legacy/ps2/ps2_device.cpp). */
module Ps2Device {
  import opened Common
  import opened GenKeyboard

  const RELEASE_PREFIX: byte := 0xF0
  const SPECIAL_PREFIX: byte := 0xE0
  const PAUSE_PREFIX: byte := 0xE1
  /** The pause key sends this many bytes, its 0xE1 included. */
  const PAUSE_SEQ_LEN: nat := 8

  /** A KEYS value, as an index into the key enumeration. */
  type Key = nat

  /** The two translation tables: scancodes without and with the 0xE0 prefix. */
  datatype ScancodeMaps = ScancodeMaps(norm: seq<Key>, spec: seq<Key>)
  {
    ghost predicate Valid() { |norm| == 256 && |spec| == 256 }
  }

  /** What the decoder passes on: handle_key_down or handle_key_up with the
      translated key and the modifier state. */
  datatype KeyEvent = KeyDown(key: Key, mods: SpecialKeys) | KeyUp(key: Key, mods: SpecialKeys)

  /** The decoder's fields. */
  datatype DecoderState = DecoderState(
    nextKeyIsRelease: bool, nextKeyIsSpecial: bool, pauseSeqChars: nat, down: SpecialKeys)

  /** The modifier state after a scancode (outside a pause sequence): the alt,
      shift and control codes record whether the key is now down. */
  function UpdateModifiers(s: DecoderState, code: byte): (m: SpecialKeys)
  {
    var pressed := !s.nextKeyIsRelease;
    if code == 0x11 then
      if s.nextKeyIsSpecial then s.down.(rightAlt := pressed) else s.down.(leftAlt := pressed)
    else if code == 0x12 then
      if s.nextKeyIsSpecial then s.down.(printScreenStart := pressed) else s.down.(leftShift := pressed)
    else if code == 0x14 then
      if s.nextKeyIsSpecial then s.down.(rightControl := pressed) else s.down.(leftControl := pressed)
    else if code == 0x59 then s.down.(rightShift := pressed)
    else s.down
  }

  /** One byte from the data port: the new state and the events it causes. */
  function Step(maps: ScancodeMaps, s: DecoderState, code: byte): (DecoderState, seq<KeyEvent>)
    requires maps.Valid()
  {
    if s.pauseSeqChars != 0 then
      var n := s.pauseSeqChars + 1;
      (s.(pauseSeqChars := if n == PAUSE_SEQ_LEN then 0 else n), [])
    else if code == RELEASE_PREFIX then (s.(nextKeyIsRelease := true), [])
    else if code == PAUSE_PREFIX then (s.(pauseSeqChars := 1), [])
    else if code == SPECIAL_PREFIX then (s.(nextKeyIsSpecial := true, nextKeyIsRelease := false), [])
    else
      var m := UpdateModifiers(s, code);
      var key := if s.nextKeyIsSpecial then maps.spec[code] else maps.norm[code];
      var ev := if s.nextKeyIsRelease then KeyUp(key, m) else KeyDown(key, m);
      (DecoderState(false, false, 0, m), [ev])
  }

  /** A run of bytes from the data port. */
  function Run(maps: ScancodeMaps, s: DecoderState, codes: seq<byte>): (DecoderState, seq<KeyEvent>)
    requires maps.Valid()
    decreases |codes|
  {
    if codes == [] then (s, [])
    else
      var (s1, e1) := Step(maps, s, codes[0]);
      var (s2, e2) := Run(maps, s1, codes[1..]);
      (s2, e1 + e2)
  }

  lemma {:induction false} RunAppend(maps: ScancodeMaps, s: DecoderState, codes: seq<byte>, code: byte)
    requires maps.Valid()
    ensures var (s1, e1) := Run(maps, s, codes);
      var (s2, e2) := Step(maps, s1, code);
      Run(maps, s, codes + [code]) == (s2, e1 + e2)
    decreases |codes|
  {
    if codes == [] {
      assert [code][1..] == [];
      var (s2, e2) := Step(maps, s, code);
      assert e2 + [] == [] + e2;
    } else {
      assert (codes + [code])[1..] == codes[1..] + [code];
      var (s1, e1) := Step(maps, s, codes[0]);
      RunAppend(maps, s1, codes[1..], code);
      var (s3, e3) := Run(maps, s1, codes[1..]);
      var (s4, e4) := Step(maps, s3, code);
      assert e1 + e3 + e4 == e1 + (e3 + e4);
    }
  }

  /** Once a pause sequence has started, the rest of its bytes, whatever they
      are, are swallowed: no events, and every flag as before. */
  lemma {:induction false} PauseBytesSwallowed(maps: ScancodeMaps, s: DecoderState, codes: seq<byte>)
    requires maps.Valid() && 0 < s.pauseSeqChars < PAUSE_SEQ_LEN && s.pauseSeqChars + |codes| <= PAUSE_SEQ_LEN
    ensures Run(maps, s, codes).1 == []
    ensures Run(maps, s, codes).0 == s.(pauseSeqChars := if s.pauseSeqChars + |codes| == PAUSE_SEQ_LEN then 0 else s.pauseSeqChars + |codes|)
    decreases |codes|
  {
    if codes != [] {
      var s1 := Step(maps, s, codes[0]).0;
      var r := Run(maps, s1, codes[1..]);
      assert Run(maps, s, codes) == (r.0, [] + r.1);
      if s.pauseSeqChars + 1 == PAUSE_SEQ_LEN {
        assert |codes| == 1 && codes[1..] == [];
      } else {
        PauseBytesSwallowed(maps, s1, codes[1..]);
      }
      assert [] + r.1 == r.1;
    }
  }

  /** The pause count never reaches the sequence length: it is reset there. */
  lemma PauseCountBounded(maps: ScancodeMaps, s: DecoderState, code: byte)
    requires maps.Valid() && s.pauseSeqChars < PAUSE_SEQ_LEN
    ensures Step(maps, s, code).0.pauseSeqChars < PAUSE_SEQ_LEN
    ensures s.pauseSeqChars == 0 ==> (Step(maps, s, code).0.pauseSeqChars != 0 <==> code == PAUSE_PREFIX)
  {
  }

  /** 0xE1 and the seven bytes after it make no key event and leave the
      decoder as it was, ready for the next key. */
  lemma PauseSequence(maps: ScancodeMaps, s: DecoderState, rest: seq<byte>)
    requires maps.Valid() && s.pauseSeqChars == 0 && |rest| == PAUSE_SEQ_LEN - 1
    ensures Run(maps, s, [PAUSE_PREFIX] + rest) == (s, [])
  {
    var codes := [PAUSE_PREFIX] + rest;
    assert codes[0] == PAUSE_PREFIX && codes[1..] == rest;
    PauseBytesSwallowed(maps, s.(pauseSeqChars := 1), rest);
  }

  /** A scancode that is none of the prefixes. */
  predicate IsKeyCode(code: byte)
  {
    code != RELEASE_PREFIX && code != SPECIAL_PREFIX && code != PAUSE_PREFIX
  }

  /** Outside a pause sequence, a key code clears both prefix flags and
      causes one event: a release when 0xF0 came before it, translated by
      the special table when 0xE0 did. */
  lemma KeyCodeClearsFlags(maps: ScancodeMaps, s: DecoderState, code: byte)
    requires maps.Valid() && s.pauseSeqChars == 0 && IsKeyCode(code)
    ensures var (s1, ev) := Step(maps, s, code);
      && !s1.nextKeyIsRelease && !s1.nextKeyIsSpecial && s1.pauseSeqChars == 0
      && |ev| == 1 && (ev[0].KeyUp? <==> s.nextKeyIsRelease)
      && ev[0].key == (if s.nextKeyIsSpecial then maps.spec[code] else maps.norm[code])
      && ev[0].mods == s1.down
  {
  }

  /** A single byte runs as one step. */
  lemma RunOne(maps: ScancodeMaps, s: DecoderState, code: byte)
    requires maps.Valid()
    ensures Run(maps, s, [code]) == Step(maps, s, code)
  {
    assert [code][1..] == [];
    assert Step(maps, s, code).1 + [] == Step(maps, s, code).1;
  }

  /** A prefix byte that makes no event runs on into the rest. */
  lemma RunPrefix(maps: ScancodeMaps, s: DecoderState, code: byte, rest: seq<byte>)
    requires maps.Valid() && Step(maps, s, code).1 == []
    ensures Run(maps, s, [code] + rest) == Run(maps, Step(maps, s, code).0, rest)
  {
    assert ([code] + rest)[0] == code && ([code] + rest)[1..] == rest;
    assert [] + Run(maps, Step(maps, s, code).0, rest).1 == Run(maps, Step(maps, s, code).0, rest).1;
  }

  /** The decoder between keys: no prefix pending. */
  predicate Idle(s: DecoderState)
  {
    !s.nextKeyIsRelease && !s.nextKeyIsSpecial && s.pauseSeqChars == 0
  }

  /** From idle, a key code alone is a press, 0xF0 then a key code is that
      key's release, and 0xE0 0xF0 then a key code is the special key's
      release; each leaves the decoder idle with the key's modifier update. */
  lemma KeySequences(maps: ScancodeMaps, s: DecoderState, code: byte)
    requires maps.Valid() && Idle(s) && IsKeyCode(code)
    ensures Run(maps, s, [code]) ==
      (DecoderState(false, false, 0, UpdateModifiers(s, code)), [KeyDown(maps.norm[code], UpdateModifiers(s, code))])
    ensures var r := s.(nextKeyIsRelease := true);
      Run(maps, s, [RELEASE_PREFIX, code]) ==
      (DecoderState(false, false, 0, UpdateModifiers(r, code)), [KeyUp(maps.norm[code], UpdateModifiers(r, code))])
    ensures var r := s.(nextKeyIsRelease := true, nextKeyIsSpecial := true);
      Run(maps, s, [SPECIAL_PREFIX, RELEASE_PREFIX, code]) ==
      (DecoderState(false, false, 0, UpdateModifiers(r, code)), [KeyUp(maps.spec[code], UpdateModifiers(r, code))])
  {
    RunOne(maps, s, code);
    var r := s.(nextKeyIsRelease := true);
    RunPrefix(maps, s, RELEASE_PREFIX, [code]);
    RunOne(maps, r, code);
    var sp := s.(nextKeyIsSpecial := true);
    RunPrefix(maps, s, SPECIAL_PREFIX, [RELEASE_PREFIX, code]);
    RunPrefix(maps, sp, RELEASE_PREFIX, [code]);
    RunOne(maps, sp.(nextKeyIsRelease := true), code);
  }

  /** Pressing and releasing a modifier sets and clears exactly its flag:
      0x12 is left shift, 0x59 right shift, 0x14 left control and 0xE0 0x14
      right control, 0x11 left alt and 0xE0 0x11 right alt. */
  lemma ModifiersTrackKeys(s: DecoderState)
    requires Idle(s)
    ensures UpdateModifiers(s, 0x12) == s.down.(leftShift := true)
    ensures UpdateModifiers(s.(nextKeyIsRelease := true), 0x12) == s.down.(leftShift := false)
    ensures UpdateModifiers(s, 0x59) == s.down.(rightShift := true)
    ensures UpdateModifiers(s.(nextKeyIsRelease := true), 0x59) == s.down.(rightShift := false)
    ensures UpdateModifiers(s, 0x14) == s.down.(leftControl := true)
    ensures UpdateModifiers(s.(nextKeyIsRelease := true, nextKeyIsSpecial := true), 0x14) == s.down.(rightControl := false)
    ensures UpdateModifiers(s, 0x11) == s.down.(leftAlt := true)
    ensures UpdateModifiers(s.(nextKeyIsSpecial := true), 0x11) == s.down.(rightAlt := true)
    ensures forall code: byte :: code != 0x11 && code != 0x12 && code != 0x14 && code != 0x59 ==>
      UpdateModifiers(s, code) == s.down
  {
  }

  /** ps2_keyboard_device's decoding state. events is what it has passed to
      handle_key_down and handle_key_up. */
  class Ps2Keyboard {
    const maps: ScancodeMaps
    var nextKeyIsRelease: bool
    var nextKeyIsSpecial: bool
    var pauseSeqChars: nat
    var specKeysDown: SpecialKeys
    var events: seq<KeyEvent>

    function State(): DecoderState
      reads this
    {
      DecoderState(nextKeyIsRelease, nextKeyIsSpecial, pauseSeqChars, specKeysDown)
    }

    constructor (m: ScancodeMaps, down: SpecialKeys)
      requires m.Valid()
      ensures maps == m && State() == DecoderState(false, false, 0, down) && events == []
    {
      maps := m;
      nextKeyIsRelease := false;
      nextKeyIsSpecial := false;
      pauseSeqChars := 0;
      specKeysDown := down;
      events := [];
    }

    /** handle_interrupt_slow, given the bytes the data port yields while
        the status port reports output waiting. */
    method HandleInterruptSlow(scancodes: seq<byte>)
      requires maps.Valid()
      modifies this
      ensures State() == Run(maps, old(State()), scancodes).0
      ensures events == old(events) + Run(maps, old(State()), scancodes).1
    {
      var i := 0;
      while i < |scancodes|
        invariant i <= |scancodes|
        invariant State() == Run(maps, old(State()), scancodes[..i]).0
        invariant events == old(events) + Run(maps, old(State()), scancodes[..i]).1
      {
        RunAppend(maps, old(State()), scancodes[..i], scancodes[i]);
        assert scancodes[..i + 1] == scancodes[..i] + [scancodes[i]];
        HandleScancode(scancodes[i]);
        i := i + 1;
      }
      assert scancodes[..|scancodes|] == scancodes;
    }

    /** One pass of the loop in handle_interrupt_slow: the decoder consumes
        one byte. */
    method HandleScancode(scancode: byte)
      requires maps.Valid()
      modifies this
      ensures State() == Step(maps, old(State()), scancode).0
      ensures events == old(events) + Step(maps, old(State()), scancode).1
    {
      if pauseSeqChars != 0 {
        pauseSeqChars := pauseSeqChars + 1;
        if pauseSeqChars == PAUSE_SEQ_LEN {
          pauseSeqChars := 0;
        }
      } else {
        if scancode == 0x00 || scancode == 0xAA || scancode == 0xEE || scancode == 0xFA
          || scancode == 0xFC || scancode == 0xFD || scancode == 0xFE || scancode == 0xFF {
          // command responses, ignored here
        } else if scancode == RELEASE_PREFIX {
          nextKeyIsRelease := true;
        } else if scancode == 0x11 {
          if nextKeyIsSpecial {
            specKeysDown := specKeysDown.(rightAlt := !nextKeyIsRelease);
          } else {
            specKeysDown := specKeysDown.(leftAlt := !nextKeyIsRelease);
          }
        } else if scancode == 0x12 {
          if nextKeyIsSpecial {
            specKeysDown := specKeysDown.(printScreenStart := !nextKeyIsRelease);
          } else {
            specKeysDown := specKeysDown.(leftShift := !nextKeyIsRelease);
          }
        } else if scancode == 0x14 {
          if nextKeyIsSpecial {
            specKeysDown := specKeysDown.(rightControl := !nextKeyIsRelease);
          } else {
            specKeysDown := specKeysDown.(leftControl := !nextKeyIsRelease);
          }
        } else if scancode == 0x59 {
          specKeysDown := specKeysDown.(rightShift := !nextKeyIsRelease);
        } else if scancode == SPECIAL_PREFIX {
          nextKeyIsSpecial := true;
        } else if scancode == PAUSE_PREFIX {
          pauseSeqChars := 1;
        }
        if scancode != RELEASE_PREFIX && scancode != PAUSE_PREFIX {
          if scancode != SPECIAL_PREFIX {
            var translated := if nextKeyIsSpecial then maps.spec[scancode] else maps.norm[scancode];
            if nextKeyIsRelease {
              events := events + [KeyUp(translated, specKeysDown)];
            } else {
              events := events + [KeyDown(translated, specKeysDown)];
            }
            nextKeyIsSpecial := false;
          }
          nextKeyIsRelease := false;
        }
      }
    }
  }
}
