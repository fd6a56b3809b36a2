/** The generic terminal's input line discipline and output newline
    translation (kernel/devices/generic/gen_terminal.cpp). */
module GenTerminal {
  import opened Common

  const LF: char := '\n'
  const CR: char := '\r'
  const BS: char := 8 as char
  const DEL: char := 0x7F as char

  /** What the terminal writes to erase the character before the cursor. */
  const ERASE_ECHO: seq<char> := [BS, ' ', BS]

  /** DEV_STATUS, with the RESET state the terminal passes through. */
  datatype DevStatus = Ok | Failed | Stopped | NotPresent | NotReady | Reset

  /** The output newline translation a terminal applies. */
  datatype NewlineMode = NoTranslation | LfToCrlf | CrToCrlf

  /** terminal_opts. */
  datatype TerminalOpts = TerminalOpts(
    lineDiscipline: bool, inputReturnIsNewline: bool, char7fIsBackspace: bool, outputNewline: NewlineMode)

  /** The characters write_string sends to the screen for one character. */
  function TranslateChar(mode: NewlineMode, ch: char): seq<char>
  {
    if ch == LF && mode == LfToCrlf then [CR, LF]
    else if ch == CR && mode == CrToCrlf then [CR, LF]
    else [ch]
  }

  /** The characters write_string sends to the screen for a string. */
  function Translate(mode: NewlineMode, s: seq<char>): seq<char>
  {
    if s == [] then [] else TranslateChar(mode, s[0]) + Translate(mode, s[1..])
  }

  lemma {:induction false} TranslateSnoc(mode: NewlineMode, s: seq<char>, ch: char)
    ensures Translate(mode, s + [ch]) == Translate(mode, s) + TranslateChar(mode, ch)
  {
    if s != [] {
      assert (s + [ch])[1..] == s[1..] + [ch];
      TranslateSnoc(mode, s[1..], ch);
    } else {
      assert [ch][1..] == [];
    }
  }

  function Count(s: seq<char>, ch: char): nat
  {
    if s == [] then 0 else (if s[0] == ch then 1 else 0) + Count(s[1..], ch)
  }

  /** Undoes LF_TO_CRLF: every CR LF pair becomes LF. */
  function CollapseCrLf(t: seq<char>): seq<char>
  {
    if t == [] then []
    else if |t| >= 2 && t[0] == CR && t[1] == LF then [LF] + CollapseCrLf(t[2..])
    else [t[0]] + CollapseCrLf(t[1..])
  }

  /** Undoes CR_TO_CRLF: the character after every CR is dropped. */
  function DropAfterCr(t: seq<char>): seq<char>
    decreases |t|
  {
    if t == [] then []
    else if t[0] == CR then [CR] + DropAfterCr(if |t| >= 2 then t[2..] else [])
    else [t[0]] + DropAfterCr(t[1..])
  }

  /** Without a translation mode the screen gets the string unchanged. */
  lemma {:induction false} NoTranslationIsIdentity(s: seq<char>)
    ensures Translate(NoTranslation, s) == s
  {
    if s != [] {
      NoTranslationIsIdentity(s[1..]);
    }
  }

  /** LF_TO_CRLF adds exactly one CR for every LF, and each inserted CR can be
      told apart from one the string already held: collapsing CR LF pairs
      gives the string back. */
  lemma {:induction false} LfToCrlfRoundTrip(s: seq<char>)
    ensures |Translate(LfToCrlf, s)| == |s| + Count(s, LF)
    ensures CollapseCrLf(Translate(LfToCrlf, s)) == s
  {
    if s != [] {
      LfToCrlfRoundTrip(s[1..]);
      var t := Translate(LfToCrlf, s[1..]);
      if s[0] == LF {
        assert Translate(LfToCrlf, s) == [CR, LF] + t;
        assert ([CR, LF] + t)[2..] == t;
      } else {
        assert Translate(LfToCrlf, s) == [s[0]] + t;
        assert ([s[0]] + t)[1..] == t;
        if s[0] == CR && t != [] {
          assert t[0] == CR || t[0] == s[1];
          assert s[1] == LF ==> t[0] == CR;
        }
      }
    }
  }

  /** CR_TO_CRLF adds exactly one LF after every CR; dropping the character
      after each CR gives the string back. */
  lemma {:induction false} CrToCrlfRoundTrip(s: seq<char>)
    ensures |Translate(CrToCrlf, s)| == |s| + Count(s, CR)
    ensures DropAfterCr(Translate(CrToCrlf, s)) == s
  {
    if s != [] {
      CrToCrlfRoundTrip(s[1..]);
      var t := Translate(CrToCrlf, s[1..]);
      if s[0] == CR {
        assert Translate(CrToCrlf, s) == [CR, LF] + t;
        assert ([CR, LF] + t)[2..] == t;
      } else {
        assert Translate(CrToCrlf, s) == [s[0]] + t;
        assert ([s[0]] + t)[1..] == t;
      }
    }
  }

  /** The key handle_character works on: CR becomes LF when the options ask
      for it. */
  function InputKey(opts: TerminalOpts, key: char): (k: char)
    ensures key != CR ==> k == key
    ensures key == CR ==> (k == LF <==> opts.inputReturnIsNewline)
  {
    if key == CR && opts.inputReturnIsNewline then LF else key
  }

  /** The line-discipline edit of the pending line for one key: the new line
      and what is echoed. */
  function EditLine(opts: TerminalOpts, line: seq<char>, key: char): (seq<char>, seq<char>)
    decreases if key == DEL then 1 else 0
  {
    if key == BS then
      if |line| > 0 then (line[..|line| - 1], ERASE_ECHO) else (line, [])
    else if key == DEL then
      if opts.char7fIsBackspace then EditLine(opts, line, BS) else (line, [])
    else (line + [key], [key])
  }

  /** The outcome of one key in line-discipline mode. */
  datatype KeyEffect = KeyEffect(line: seq<char>, echo: seq<char>, flushed: Option<seq<char>>)

  /** A key in line-discipline mode with a buffer that holds capacity
      characters before its terminator: the line is edited and echoed, and
      it is sent on and cleared on a newline or when the buffer is full. */
  function KeyStep(opts: TerminalOpts, capacity: nat, line: seq<char>, key: char): KeyEffect
  {
    var (l, e) := EditLine(opts, line, key);
    if key == LF || |l| == capacity then KeyEffect([], e, Some(l)) else KeyEffect(l, e, None)
  }

  /** Keys that edit nothing but the end of the line. */
  predicate Printable(key: char)
  {
    key != BS && key != DEL && key != LF
  }

  /** A key never makes the pending line reach the buffer's capacity: the
      line is sent on first. */
  lemma KeyStepKeepsRoom(opts: TerminalOpts, capacity: nat, line: seq<char>, key: char)
    requires |line| < capacity
    ensures |KeyStep(opts, capacity, line, key).line| < capacity
    ensures KeyStep(opts, capacity, line, key).flushed.Some? ==> |KeyStep(opts, capacity, line, key).flushed.value| <= capacity
  {
    if key == DEL && opts.char7fIsBackspace {
      assert EditLine(opts, line, DEL) == EditLine(opts, line, BS);
    }
  }

  /** Backspace removes the last pending character and erases it on screen;
      in the first column it does nothing. Character 127 does the same when
      the options say so, and is dropped otherwise. */
  lemma BackspaceErases(opts: TerminalOpts, capacity: nat, line: seq<char>)
    requires 0 < capacity
    ensures |line| > 0 && |line| - 1 != capacity ==>
      KeyStep(opts, capacity, line, BS) == KeyEffect(line[..|line| - 1], ERASE_ECHO, None)
    ensures line == [] ==> KeyStep(opts, capacity, line, BS) == KeyEffect([], [], None)
    ensures opts.char7fIsBackspace ==> KeyStep(opts, capacity, line, DEL).line == KeyStep(opts, capacity, line, BS).line
    ensures !opts.char7fIsBackspace && |line| != capacity ==> KeyStep(opts, capacity, line, DEL) == KeyEffect(line, [], None)
  {
  }

  /** A newline is stored, echoed, and sends the whole line on. */
  lemma NewlineFlushesLine(opts: TerminalOpts, capacity: nat, line: seq<char>)
    ensures KeyStep(opts, capacity, line, LF) == KeyEffect([], [LF], Some(line + [LF]))
  {
  }

  /** A character that fills the buffer sends the line on without a newline. */
  lemma FullBufferFlushes(opts: TerminalOpts, capacity: nat, line: seq<char>, key: char)
    requires Printable(key) && |line| + 1 == capacity
    ensures KeyStep(opts, capacity, line, key) == KeyEffect([], [key], Some(line + [key]))
  {
  }

  /** A run of keys through the line discipline: the final line, the lines
      sent on and the echo. */
  function Feed(opts: TerminalOpts, capacity: nat, line: seq<char>, keys: seq<char>): (seq<char>, seq<seq<char>>, seq<char>)
    decreases |keys|
  {
    if keys == [] then (line, [], [])
    else
      var e := KeyStep(opts, capacity, line, keys[0]);
      var (l, sent, echo) := Feed(opts, capacity, e.line, keys[1..]);
      (l, (if e.flushed.Some? then [e.flushed.value] else []) + sent, e.echo + echo)
  }

  /** Ordinary characters that fit accumulate in the line and are echoed as
      typed, and nothing is sent on. */
  lemma {:induction false} TypedTextAccumulates(opts: TerminalOpts, capacity: nat, line: seq<char>, keys: seq<char>)
    requires forall k :: 0 <= k < |keys| ==> Printable(keys[k])
    requires |line| + |keys| < capacity
    ensures Feed(opts, capacity, line, keys) == (line + keys, [], keys)
    decreases |keys|
  {
    if keys != [] {
      var e := KeyStep(opts, capacity, line, keys[0]);
      assert e == KeyEffect(line + [keys[0]], [keys[0]], None);
      TypedTextAccumulates(opts, capacity, line + [keys[0]], keys[1..]);
      var r := Feed(opts, capacity, e.line, keys[1..]);
      assert [] + r.1 == r.1;
      assert line + [keys[0]] + keys[1..] == line + keys;
      assert [keys[0]] + keys[1..] == keys;
    } else {
      assert line + keys == line;
    }
  }

  /** Typing a line and pressing return sends exactly that line and its
      newline, and leaves the line empty. */
  lemma TypedLineIsSent(opts: TerminalOpts, capacity: nat, keys: seq<char>)
    requires forall k :: 0 <= k < |keys| ==> Printable(keys[k])
    requires |keys| + 1 < capacity
    ensures Feed(opts, capacity, [], keys + [LF]) == ([], [keys + [LF]], keys + [LF])
  {
    FeedAppend(opts, capacity, [], keys, LF);
    TypedTextAccumulates(opts, capacity, [], keys);
    NewlineFlushesLine(opts, capacity, keys);
    assert [] + keys == keys;
    assert [] + [keys + [LF]] == [keys + [LF]];
  }

  lemma {:induction false} FeedAppend(opts: TerminalOpts, capacity: nat, line: seq<char>, keys: seq<char>, key: char)
    ensures var (l, sent, echo) := Feed(opts, capacity, line, keys);
      var e := KeyStep(opts, capacity, l, key);
      Feed(opts, capacity, line, keys + [key]) ==
        (e.line, sent + (if e.flushed.Some? then [e.flushed.value] else []), echo + e.echo)
    decreases |keys|
  {
    if keys == [] {
      assert [key][1..] == [];
      var e := KeyStep(opts, capacity, line, key);
      var f: seq<seq<char>> := if e.flushed.Some? then [e.flushed.value] else [];
      assert [] + f == f + [];
      assert [] + e.echo == e.echo + [];
    } else {
      assert (keys + [key])[1..] == keys[1..] + [key];
      var e0 := KeyStep(opts, capacity, line, keys[0]);
      FeedAppend(opts, capacity, e0.line, keys[1..], key);
      var r := Feed(opts, capacity, e0.line, keys[1..]);
      var e := KeyStep(opts, capacity, r.0, key);
      var f0: seq<seq<char>> := if e0.flushed.Some? then [e0.flushed.value] else [];
      var f: seq<seq<char>> := if e.flushed.Some? then [e.flushed.value] else [];
      assert f0 + r.1 + f == f0 + (r.1 + f);
      assert e0.echo + r.2 + e.echo == e0.echo + (r.2 + e.echo);
    }
  }

  /** terms::generic: the terminal device. The command buffer holds the
      pending line before its terminator; screen is what write_raw_string has
      been given and stdinWrites the data written to the keyboard pipe, one
      write_bytes call each. */
  class Terminal {
    var status: DevStatus
    var filters: TerminalOpts
    const commandBuffer: array<char>
    var commandBufferPos: nat
    /** Whether stdin_writer is set. */
    const hasStdin: bool
    var screen: seq<char>
    var stdinWrites: seq<seq<char>>

    ghost predicate Valid()
      reads this
    {
      commandBuffer.Length >= 2 && commandBufferPos < commandBuffer.Length - 1
    }

    /** The characters the buffer can hold before its terminator. */
    function Capacity(): nat
      reads this
      requires Valid()
    {
      commandBuffer.Length - 1
    }

    /** The pending line. */
    function Line(): seq<char>
      reads this, commandBuffer
      requires Valid()
    {
      commandBuffer[..commandBufferPos]
    }

    constructor (bufferSize: nat, stdin: bool, initial: DevStatus, opts: TerminalOpts)
      requires bufferSize >= 2
      ensures Valid() && fresh(commandBuffer) && commandBuffer.Length == bufferSize
      ensures status == initial && filters == opts && hasStdin == stdin
      ensures Line() == [] && screen == [] && stdinWrites == []
    {
      status := initial;
      filters := opts;
      commandBuffer := new char[bufferSize];
      commandBufferPos := 0;
      hasStdin := stdin;
      screen := [];
      stdinWrites := [];
    }

    method Start()
      modifies this
      ensures status == DevStatus.Ok && filters == old(filters) && commandBufferPos == old(commandBufferPos)
      ensures screen == old(screen) && stdinWrites == old(stdinWrites)
    {
      status := DevStatus.Ok;
    }

    method Stop()
      modifies this
      ensures status == Stopped && filters == old(filters) && commandBufferPos == old(commandBufferPos)
      ensures screen == old(screen) && stdinWrites == old(stdinWrites)
    {
      status := Stopped;
    }

    /** reset: the options return to their defaults and the device is left
        stopped. */
    method ResetDevice(defaults: TerminalOpts)
      modifies this
      ensures status == Stopped && filters == defaults && commandBufferPos == old(commandBufferPos)
      ensures screen == old(screen) && stdinWrites == old(stdinWrites)
    {
      status := Reset;
      filters := defaults;
      status := Stopped;
    }

    /** set_filtering_opts: switching the line discipline on or off discards
        the pending line. */
    method SetFilteringOpts(opts: TerminalOpts)
      requires Valid()
      modifies this
      ensures Valid() && filters == opts && status == old(status)
      ensures opts.lineDiscipline != old(filters).lineDiscipline ==> commandBufferPos == 0
      ensures opts.lineDiscipline == old(filters).lineDiscipline ==> commandBufferPos == old(commandBufferPos)
      ensures screen == old(screen) && stdinWrites == old(stdinWrites)
    {
      if opts.lineDiscipline != filters.lineDiscipline {
        commandBufferPos := 0;
      }
      filters := opts;
    }

    /** write_string: each character goes to the screen translated by the
        output newline mode; nothing is written unless the device is OK. */
    method WriteString(s: seq<char>)
      requires |s| < 0x1_0000
      modifies this
      ensures status == old(status) && filters == old(filters) && commandBufferPos == old(commandBufferPos)
      ensures stdinWrites == old(stdinWrites)
      ensures screen == old(screen) + (if status == DevStatus.Ok then Translate(filters.outputNewline, s) else [])
    {
      if status == DevStatus.Ok {
        for c := 0 to |s|
          invariant status == old(status) && filters == old(filters) && commandBufferPos == old(commandBufferPos)
          invariant stdinWrites == old(stdinWrites)
          invariant screen == old(screen) + Translate(filters.outputNewline, s[..c])
        {
          if s[c] == LF && filters.outputNewline == LfToCrlf {
            screen := screen + [CR];
          }
          screen := screen + [s[c]];
          if s[c] == CR && filters.outputNewline == CrToCrlf {
            screen := screen + [LF];
          }
          TranslateSnoc(filters.outputNewline, s[..c], s[c]);
          assert s[..c + 1] == s[..c] + [s[c]];
        }
        assert s[..|s|] == s;
      }
    }

    /** handle_character: a key is ignored unless the device is OK. In
        line-discipline mode it edits, echoes and possibly sends on the
        pending line as KeyStep describes; otherwise it is passed straight to
        the keyboard pipe. */
    method HandleCharacter(key: char)
      requires Valid()
      modifies this, commandBuffer
      decreases if key == DEL then 1 else 0
      ensures Valid() && status == old(status) && filters == old(filters)
      ensures old(status) != DevStatus.Ok ==>
        commandBufferPos == old(commandBufferPos) && screen == old(screen) && stdinWrites == old(stdinWrites)
      ensures old(status) == DevStatus.Ok && filters.lineDiscipline ==>
        var e := KeyStep(filters, Capacity(), old(Line()), InputKey(filters, key));
        && Line() == e.line
        && screen == old(screen) + Translate(filters.outputNewline, e.echo)
        && stdinWrites == old(stdinWrites) + (if e.flushed.Some? && hasStdin then [e.flushed.value] else [])
      ensures old(status) == DevStatus.Ok && !filters.lineDiscipline ==>
        && commandBufferPos == old(commandBufferPos) && screen == old(screen)
        && commandBuffer[..commandBufferPos] == old(commandBuffer[..commandBufferPos])
        && stdinWrites == old(stdinWrites) + (if hasStdin then [[InputKey(filters, key)]] else [])
    {
      if status != DevStatus.Ok {
        return;
      }
      var k := InputKey(filters, key);
      if filters.lineDiscipline {
        ghost var line := Line();
        if k == BS {
          if commandBufferPos > 0 {
            commandBufferPos := commandBufferPos - 1;
            commandBuffer[commandBufferPos] := 0 as char;
            WriteString(ERASE_ECHO);
          }
        } else if k == DEL {
          if filters.char7fIsBackspace {
            HandleCharacter(BS);
          }
        } else {
          commandBuffer[commandBufferPos] := k;
          commandBuffer[commandBufferPos + 1] := 0 as char;
          commandBufferPos := commandBufferPos + 1;
          WriteString([k]);
          assert commandBuffer[..commandBufferPos] == line + [k];
        }
        if k == LF || commandBufferPos == commandBuffer.Length - 1 {
          if hasStdin {
            stdinWrites := stdinWrites + [commandBuffer[..commandBufferPos]];
          }
          commandBufferPos := 0;
        }
      } else if hasStdin {
        stdinWrites := stdinWrites + [[k]];
      }
    }
  }
}
