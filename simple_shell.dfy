/** The simple shell's command-line tokenizer (count_command_details and
    parse_command in user/simple_shell/simple_shell.cpp). Arguments are
    separated by unquoted spaces; a single quote toggles quoting and a
    doubled quote stands for a literal quote. The command is the text before
    its terminating 0, and positions in it play the part of the pointer the
    C code walks. */
module SimpleShell {
  import opened Common

  const SPACE: char := ' '
  const QUOTE: char := '\''
  const NUL: char := '\0'

  /** The first position at or after i that does not hold a space. */
  function SkipSpaces(c: seq<char>, i: nat): (j: nat)
    requires i <= |c|
    ensures i <= j <= |c| && (j < |c| ==> c[j] != SPACE)
    decreases |c| - i
  {
    if i < |c| && c[i] == SPACE then SkipSpaces(c, i + 1) else i
  }

  /** The scan both functions perform from position i: inQuote is the
      quoting state, cur the argument being built and done the arguments
      already finished. Returns !is_in_quote and the arguments. An unquoted
      space ends the current argument only when a character other than a
      space follows it, so runs of spaces and trailing spaces make no
      arguments. */
  function Scan(c: seq<char>, i: nat, inQuote: bool, cur: seq<char>, done: seq<seq<char>>): (r: (bool, seq<seq<char>>))
    requires i <= |c|
    ensures |r.1| >= |done| + 1
    decreases |c| - i
  {
    if i == |c| then (!inQuote, done + [cur])
    else if c[i] == QUOTE then
      if i + 1 < |c| && c[i + 1] == QUOTE then Scan(c, i + 2, inQuote, cur + [QUOTE], done)
      else Scan(c, i + 1, !inQuote, cur, done)
    else if c[i] == SPACE && !inQuote then
      if i + 1 < |c| && c[i + 1] != SPACE then Scan(c, i + 1, inQuote, [], done + [cur])
      else Scan(c, i + 1, inQuote, cur, done)
    else Scan(c, i + 1, inQuote, cur + [c[i]], done)
  }

  /** The result of parsing a whole command: whether its quotes match, and
      its arguments. */
  function Tokenize(command: seq<char>): (bool, seq<seq<char>>)
  {
    Scan(command, SkipSpaces(command, 0), false, [], [])
  }

  /** The buffer space the scan from position i still needs: one cell for
      every character it copies and one for every terminator, the current
      argument's included. */
  function SpaceFrom(c: seq<char>, i: nat, inQuote: bool): (n: nat)
    requires i <= |c|
    ensures n >= 1
    decreases |c| - i
  {
    if i == |c| then 1
    else if c[i] == QUOTE then
      if i + 1 < |c| && c[i + 1] == QUOTE then 1 + SpaceFrom(c, i + 2, inQuote)
      else SpaceFrom(c, i + 1, !inQuote)
    else if c[i] == SPACE && !inQuote then
      if i + 1 < |c| && c[i + 1] != SPACE then 1 + SpaceFrom(c, i + 1, inQuote)
      else SpaceFrom(c, i + 1, inQuote)
    else 1 + SpaceFrom(c, i + 1, inQuote)
  }

  /** The buffer space the arguments need: each one and its terminating 0. */
  function ArgSpace(args: seq<seq<char>>): nat
  {
    if args == [] then 0 else ArgSpace(args[..|args| - 1]) + |args[|args| - 1]| + 1
  }

  lemma ArgSpaceAppend(args: seq<seq<char>>, a: seq<char>)
    ensures ArgSpace(args + [a]) == ArgSpace(args) + |a| + 1
  {
    assert (args + [a])[..|args|] == args;
  }

  lemma ConcatAssoc<T>(a: seq<T>, b: seq<T>, c: seq<T>)
    ensures a + b + c == a + (b + c)
  {
  }

  /** Quotes from position i on that are not part of a doubled pair. */
  function LoneQuotes(c: seq<char>, i: nat): nat
    requires i <= |c|
    decreases |c| - i
  {
    if i == |c| then 0
    else if c[i] == QUOTE && i + 1 < |c| && c[i + 1] == QUOTE then LoneQuotes(c, i + 2)
    else if c[i] == QUOTE then 1 + LoneQuotes(c, i + 1)
    else LoneQuotes(c, i + 1)
  }

  lemma {:induction false} LoneQuotesSkipSpaces(c: seq<char>, i: nat)
    requires i <= |c|
    ensures LoneQuotes(c, SkipSpaces(c, i)) == LoneQuotes(c, i)
    decreases |c| - i
  {
    if i < |c| && c[i] == SPACE {
      LoneQuotesSkipSpaces(c, i + 1);
    }
  }

  lemma {:induction false} ScanQuoteParity(c: seq<char>, i: nat, inQuote: bool, cur: seq<char>, done: seq<seq<char>>)
    requires i <= |c|
    ensures Scan(c, i, inQuote, cur, done).0 <==> (inQuote <==> LoneQuotes(c, i) % 2 == 1)
    decreases |c| - i
  {
    if i == |c| {
    } else if c[i] == QUOTE {
      if i + 1 < |c| && c[i + 1] == QUOTE {
        ScanQuoteParity(c, i + 2, inQuote, cur + [QUOTE], done);
      } else {
        ScanQuoteParity(c, i + 1, !inQuote, cur, done);
      }
    } else if c[i] == SPACE && !inQuote {
      if i + 1 < |c| && c[i + 1] != SPACE {
        ScanQuoteParity(c, i + 1, inQuote, [], done + [cur]);
      } else {
        ScanQuoteParity(c, i + 1, inQuote, cur, done);
      }
    } else {
      ScanQuoteParity(c, i + 1, inQuote, cur + [c[i]], done);
    }
  }

  /** A command parses successfully exactly when its lone quotes pair up: an
      unmatched quote makes both functions return false. */
  lemma UnmatchedQuoteFails(command: seq<char>)
    ensures Tokenize(command).0 <==> LoneQuotes(command, 0) % 2 == 0
  {
    ScanQuoteParity(command, SkipSpaces(command, 0), false, [], []);
    LoneQuotesSkipSpaces(command, 0);
  }

  /** The end of the word starting at i: the next space, or the end. */
  function WordEnd(c: seq<char>, i: nat): (k: nat)
    requires i <= |c|
    ensures i <= k <= |c| && (k < |c| ==> c[k] == SPACE)
    ensures forall m :: i <= m < k ==> c[m] != SPACE
    decreases |c| - i
  {
    if i == |c| || c[i] == SPACE then i else WordEnd(c, i + 1)
  }

  /** The space-separated words from position i on: what a shell is expected
      to make of a command without quotes, however many spaces surround the
      words. */
  function Words(c: seq<char>, i: nat): (ws: seq<seq<char>>)
    requires i <= |c|
    ensures forall n :: 0 <= n < |ws| ==> ws[n] != [] && SPACE !in ws[n]
    decreases |c| - i
  {
    var j := SkipSpaces(c, i);
    if j == |c| then []
    else
      var k := WordEnd(c, j);
      var w := c[j..k];
      assert w[0] == c[j];
      assert forall m :: 0 <= m < |w| ==> w[m] == c[j + m];
      var ws := Words(c, k);
      assert forall n :: 1 <= n < |ws| + 1 ==> ([w] + ws)[n] == ws[n - 1];
      [w] + ws
  }

  predicate NoQuotesFrom(c: seq<char>, i: nat)
  {
    forall k :: i <= k < |c| ==> c[k] != QUOTE
  }

  lemma {:induction false} ScanWords(c: seq<char>, i: nat, cur: seq<char>, done: seq<seq<char>>)
    requires i <= |c| && NoQuotesFrom(c, i)
    ensures Scan(c, i, false, cur, done) == (true, done + [cur + c[i..WordEnd(c, i)]] + Words(c, WordEnd(c, i)))
    decreases |c| - i
  {
    var k := WordEnd(c, i);
    if i == |c| {
      assert c[i..k] == [] && Words(c, k) == [];
      assert cur + [] == cur;
      assert done + [cur] + [] == done + [cur];
    } else if c[i] == SPACE {
      assert k == i && c[i..k] == [] && cur + [] == cur;
      var k' := WordEnd(c, i + 1);
      if i + 1 < |c| && c[i + 1] != SPACE {
        var d := done + [cur];
        var w := c[i + 1..k'];
        var rest := Words(c, k');
        ScanWords(c, i + 1, [], d);
        assert [] + w == w;
        assert SkipSpaces(c, i) == i + 1;
        assert Words(c, i) == [w] + rest;
        ConcatAssoc(d, [w], rest);
      } else {
        ScanWords(c, i + 1, cur, done);
        assert k' == i + 1 && c[i + 1..k'] == [];
        assert SkipSpaces(c, i) == SkipSpaces(c, i + 1);
        assert Words(c, i) == Words(c, i + 1);
      }
    } else {
      ScanWords(c, i + 1, cur + [c[i]], done);
      assert WordEnd(c, i + 1) == k;
      assert c[i..k] == [c[i]] + c[i + 1..k];
      ConcatAssoc(cur, [c[i]], c[i + 1..k]);
    }
  }

  /** Without quotes, leading, repeated and trailing spaces create no
      arguments: the arguments are the command's words. A blank command
      gives a single empty argument. */
  lemma SpacesMakeNoArguments(command: seq<char>)
    requires NoQuotesFrom(command, 0)
    ensures Words(command, 0) != [] ==> Tokenize(command) == (true, Words(command, 0))
    ensures Words(command, 0) == [] ==> Tokenize(command) == (true, [[]])
  {
    var j := SkipSpaces(command, 0);
    var none: seq<seq<char>> := [];
    ScanWords(command, j, [], none);
    if j == |command| {
      assert Scan(command, j, false, [], none) == (true, none + [[]]);
      assert none + [[]] == [[]];
    } else {
      var k := WordEnd(command, j);
      var w := command[j..k];
      var rest := Words(command, k);
      assert Words(command, 0) == [w] + rest;
      assert [] + w == w;
      assert none + [w] + rest == [w] + rest;
    }
  }

  /** A run of characters that are neither spaces nor quotes is copied into
      the current argument. */
  lemma {:induction false} ScanPlain(c: seq<char>, i: nat, j: nat, inQuote: bool, cur: seq<char>, done: seq<seq<char>>)
    requires i <= j <= |c|
    requires forall k :: i <= k < j ==> c[k] != SPACE && c[k] != QUOTE
    ensures Scan(c, i, inQuote, cur, done) == Scan(c, j, inQuote, cur + c[i..j], done)
    decreases j - i
  {
    if i == j {
      assert cur + c[i..j] == cur;
    } else {
      ScanPlain(c, i + 1, j, inQuote, cur + [c[i]], done);
      assert c[i..j] == [c[i]] + c[i + 1..j];
      ConcatAssoc(cur, [c[i]], c[i + 1..j]);
    }
  }

  /** A doubled quote inside a word stands for one literal quote. */
  lemma DoubledQuoteIsLiteral(a: seq<char>, b: seq<char>)
    requires SPACE !in a && QUOTE !in a && SPACE !in b && QUOTE !in b
    ensures Tokenize(a + [QUOTE, QUOTE] + b) == (true, [a + [QUOTE] + b])
  {
    var c := a + [QUOTE, QUOTE] + b;
    var n := |a|;
    var none: seq<seq<char>> := [];
    assert c[..n] == a && c[n] == QUOTE && c[n + 1] == QUOTE && c[n + 2..] == b;
    assert forall k :: 0 <= k < n ==> c[k] == a[k];
    assert forall k :: n + 2 <= k < |c| ==> c[k] == b[k - n - 2];
    assert SkipSpaces(c, 0) == 0;
    ScanPlain(c, 0, n, false, [], none);
    assert c[0..n] == a && [] + a == a;
    assert Scan(c, n, false, a, none) == Scan(c, n + 2, false, a + [QUOTE], none);
    ScanPlain(c, n + 2, |c|, false, a + [QUOTE], none);
    assert c[n + 2..|c|] == b;
    assert Scan(c, |c|, false, a + [QUOTE] + b, none) == (true, none + [a + [QUOTE] + b]);
    assert none + [a + [QUOTE] + b] == [a + [QUOTE] + b];
  }

  // One step of the scan each for a doubled quote, a lone quote, a run of
  // unquoted spaces and any other character, as both loops take them.

  lemma StepQuotePair(c: seq<char>, i: nat, inQuote: bool, cur: seq<char>, done: seq<seq<char>>)
    requires i + 1 < |c| && c[i] == QUOTE && c[i + 1] == QUOTE
    ensures Scan(c, i, inQuote, cur, done) == Scan(c, i + 2, inQuote, cur + [QUOTE], done)
    ensures SpaceFrom(c, i, inQuote) == 1 + SpaceFrom(c, i + 2, inQuote)
  {
  }

  lemma StepLoneQuote(c: seq<char>, i: nat, inQuote: bool, cur: seq<char>, done: seq<seq<char>>)
    requires i < |c| && c[i] == QUOTE && !(i + 1 < |c| && c[i + 1] == QUOTE)
    ensures Scan(c, i, inQuote, cur, done) == Scan(c, i + 1, !inQuote, cur, done)
    ensures SpaceFrom(c, i, inQuote) == SpaceFrom(c, i + 1, !inQuote)
  {
  }

  lemma StepSpaceRun(c: seq<char>, i: nat, cur: seq<char>, done: seq<seq<char>>)
    requires i + 1 < |c| && c[i] == SPACE && c[i + 1] == SPACE
    ensures Scan(c, i, false, cur, done) == Scan(c, i + 1, false, cur, done)
    ensures SpaceFrom(c, i, false) == SpaceFrom(c, i + 1, false)
  {
  }

  lemma StepTrailingSpace(c: seq<char>, i: nat, cur: seq<char>, done: seq<seq<char>>)
    requires i + 1 == |c| && c[i] == SPACE
    ensures Scan(c, i, false, cur, done) == (true, done + [cur])
  {
  }

  lemma StepNewArgument(c: seq<char>, i: nat, cur: seq<char>, done: seq<seq<char>>)
    requires i + 1 < |c| && c[i] == SPACE && c[i + 1] != SPACE
    ensures Scan(c, i, false, cur, done) == Scan(c, i + 1, false, [], done + [cur])
    ensures SpaceFrom(c, i, false) == 1 + SpaceFrom(c, i + 1, false)
    ensures ArgSpace(done + [cur]) == ArgSpace(done) + |cur| + 1
    ensures |Scan(c, i, false, cur, done).1| > |done| + 1
  {
    ArgSpaceAppend(done, cur);
  }

  lemma StepChar(c: seq<char>, i: nat, inQuote: bool, cur: seq<char>, done: seq<seq<char>>)
    requires i < |c| && c[i] != QUOTE && !(c[i] == SPACE && !inQuote)
    ensures Scan(c, i, inQuote, cur, done) == Scan(c, i + 1, inQuote, cur + [c[i]], done)
    ensures SpaceFrom(c, i, inQuote) == 1 + SpaceFrom(c, i + 1, inQuote)
  {
  }

  /** count_command_details: whether the quotes match, the number of
      arguments and the buffer space their text and terminators need. */
  method CountCommandDetails(command: seq<char>) returns (ok: bool, numArgs: nat, argumentSpaceReqd: nat)
    ensures ok == Tokenize(command).0
    ensures numArgs == |Tokenize(command).1| && argumentSpaceReqd == ArgSpace(Tokenize(command).1)
  {
    argumentSpaceReqd := 1;
    numArgs := 1;
    var inQuote := false;
    var i := 0;
    while i < |command| && command[i] == SPACE
      invariant i <= |command| && SkipSpaces(command, i) == SkipSpaces(command, 0)
    {
      i := i + 1;
    }
    ghost var res := Tokenize(command);
    ghost var cur: seq<char> := [];
    ghost var done: seq<seq<char>> := [];
    while i < |command|
      invariant i <= |command|
      invariant res == Scan(command, i, inQuote, cur, done)
      invariant numArgs == |done| + 1 && argumentSpaceReqd == ArgSpace(done) + |cur| + 1
      decreases |command| - i
    {
      if command[i] == QUOTE {
        if i + 1 < |command| && command[i + 1] == QUOTE {
          StepQuotePair(command, i, inQuote, cur, done);
          argumentSpaceReqd := argumentSpaceReqd + 1;
          cur := cur + [QUOTE];
          i := i + 1;
        } else {
          StepLoneQuote(command, i, inQuote, cur, done);
          inQuote := !inQuote;
        }
      } else if command[i] == SPACE && !inQuote {
        while i + 1 < |command| && command[i + 1] == SPACE
          invariant i < |command| && command[i] == SPACE
          invariant res == Scan(command, i, inQuote, cur, done)
        {
          StepSpaceRun(command, i, cur, done);
          i := i + 1;
        }
        if i + 1 == |command| {
          StepTrailingSpace(command, i, cur, done);
          break;
        }
        StepNewArgument(command, i, cur, done);
        done := done + [cur];
        cur := [];
        numArgs := numArgs + 1;
        argumentSpaceReqd := argumentSpaceReqd + 1;
      } else {
        StepChar(command, i, inQuote, cur, done);
        cur := cur + [command[i]];
        argumentSpaceReqd := argumentSpaceReqd + 1;
      }
      i := i + 1;
    }
    ok := !inQuote;
    ArgSpaceAppend(done, cur);
  }

  /** The argument buffer parse_command is meant to fill: every argument
      followed by its terminating 0. */
  function Joined(args: seq<seq<char>>): (b: seq<char>)
    ensures |b| == ArgSpace(args)
  {
    if args == [] then [] else Joined(args[..|args| - 1]) + args[|args| - 1] + [NUL]
  }

  lemma JoinedAppend(args: seq<seq<char>>, a: seq<char>)
    ensures Joined(args + [a]) == Joined(args) + a + [NUL]
  {
    assert (args + [a])[..|args|] == args;
  }

  /** Where argument k starts in the buffer. */
  function Start(args: seq<seq<char>>, k: nat): nat
    requires k <= |args|
  {
    ArgSpace(args[..k])
  }

  lemma StartAppend(done: seq<seq<char>>, a: seq<char>)
    ensures forall k :: 0 <= k <= |done| ==> Start(done + [a], k) == Start(done, k)
  {
    forall k | 0 <= k <= |done|
      ensures Start(done + [a], k) == Start(done, k)
    {
      assert (done + [a])[..k] == done[..k];
    }
  }

  /** The argument table: one buffer offset per argument, then a null entry. */
  function ArgTable(args: seq<seq<char>>): (t: seq<Option<nat>>)
    ensures |t| == |args| + 1 && t[|args|] == None
    ensures forall k :: 0 <= k < |args| ==> t[k] == Some(Start(args, k))
  {
    seq(|args|, k requires 0 <= k < |args| => Some(Start(args, k))) + [None]
  }

  lemma TableOfStarts(t: seq<Option<nat>>, args: seq<seq<char>>)
    requires |t| == |args| + 1 && t[|args|] == None
    requires forall k :: 0 <= k < |args| ==> t[k] == Some(Start(args, k))
    ensures t == ArgTable(args)
  {
  }

  /** Every table entry of a parsed command points at its argument followed
      by a 0, so the argv strings read back as the arguments. */
  lemma {:induction false} JoinedReadsBack(args: seq<seq<char>>, k: nat)
    requires k < |args|
    ensures Start(args, k) + |args[k]| < |Joined(args)|
    ensures Joined(args)[Start(args, k)..Start(args, k) + |args[k]|] == args[k]
    ensures Joined(args)[Start(args, k) + |args[k]|] == NUL
    decreases |args|
  {
    var init := args[..|args| - 1];
    var last := args[|args| - 1];
    assert init + [last] == args;
    JoinedAppend(init, last);
    if k == |args| - 1 {
      assert args[..k] == init;
    } else {
      assert args[..k] == init[..k];
      assert args[k] == init[k];
      JoinedReadsBack(init, k);
      var j := Joined(init);
      assert Joined(args)[..|j|] == j;
      assert Joined(args)[Start(args, k)..Start(args, k) + |args[k]|] == j[Start(init, k)..Start(init, k) + |init[k]|];
    }
  }

  /** The buffer space of the arguments the scan returns is that of the
      arguments it already has, the current one's characters and what the
      rest of the command needs. */
  lemma {:induction false} ScanSpace(c: seq<char>, i: nat, inQuote: bool, cur: seq<char>, done: seq<seq<char>>)
    requires i <= |c|
    ensures ArgSpace(Scan(c, i, inQuote, cur, done).1) == ArgSpace(done) + |cur| + SpaceFrom(c, i, inQuote)
    decreases |c| - i
  {
    if i == |c| {
      ArgSpaceAppend(done, cur);
    } else if c[i] == QUOTE {
      if i + 1 < |c| && c[i + 1] == QUOTE {
        ScanSpace(c, i + 2, inQuote, cur + [QUOTE], done);
      } else {
        ScanSpace(c, i + 1, !inQuote, cur, done);
      }
    } else if c[i] == SPACE && !inQuote {
      if i + 1 < |c| && c[i + 1] != SPACE {
        ArgSpaceAppend(done, cur);
        ScanSpace(c, i + 1, inQuote, [], done + [cur]);
      } else {
        ScanSpace(c, i + 1, inQuote, cur, done);
      }
    } else {
      ScanSpace(c, i + 1, inQuote, cur + [c[i]], done);
    }
  }

  /** The start of every argument and of the one that would follow them. */
  function Starts(args: seq<seq<char>>): (t: seq<Option<nat>>)
    ensures |t| == |args| + 1
  {
    if args == [] then [Some(0)] else Starts(args[..|args| - 1]) + [Some(ArgSpace(args))]
  }

  /** Entry k of the starts is where argument k begins. */
  lemma {:induction false} StartsAt(args: seq<seq<char>>, k: nat)
    requires k <= |args|
    ensures Starts(args)[k] == Some(Start(args, k))
    decreases |args|
  {
    if k == |args| {
      assert args[..k] == args;
    } else {
      var init := args[..|args| - 1];
      assert args[..k] == init[..k];
      StartsAt(init, k);
    }
  }

  /** What parse_command has written so far: the buffer begins with the
      finished arguments, each followed by a 0, and the current argument;
      the table holds the start of every finished argument and of the
      current one. */
  ghost predicate Filled(buf: seq<char>, t: seq<Option<nat>>, wp: nat, done: seq<seq<char>>, cur: seq<char>)
  {
    wp == ArgSpace(done) + |cur| && wp <= |buf| && buf[..wp] == Joined(done) + cur
    && |done| < |t| && t[..|done| + 1] == Starts(done)
  }

  lemma FilledChar(buf: seq<char>, t: seq<Option<nat>>, wp: nat, done: seq<seq<char>>, cur: seq<char>, x: char)
    requires Filled(buf, t, wp, done, cur) && wp < |buf|
    ensures Filled(buf[wp := x], t, wp + 1, done, cur + [x])
  {
    assert buf[wp := x][..wp + 1] == buf[..wp] + [x];
    ConcatAssoc(Joined(done), cur, [x]);
  }

  lemma FilledNewArg(buf: seq<char>, t: seq<Option<nat>>, wp: nat, done: seq<seq<char>>, cur: seq<char>)
    requires Filled(buf, t, wp, done, cur) && wp < |buf| && |done| + 1 < |t|
    ensures Filled(buf[wp := NUL], t[|done| + 1 := Some(wp + 1)], wp + 1, done + [cur], [])
  {
    var t' := t[|done| + 1 := Some(wp + 1)];
    assert buf[wp := NUL][..wp + 1] == buf[..wp] + [NUL];
    ArgSpaceAppend(done, cur);
    JoinedAppend(done, cur);
    assert done + [cur] + [] == done + [cur];
    assert (done + [cur])[..|done|] == done;
    assert t'[..|done| + 2] == t[..|done| + 1] + [t'[|done| + 1]];
  }

  /** Writing the last argument's terminator completes the buffer and the
      table. */
  lemma FilledEnd(buf: seq<char>, t: seq<Option<nat>>, wp: nat, done: seq<seq<char>>, cur: seq<char>)
    requires Filled(buf, t, wp, done, cur)
    requires |buf| == ArgSpace(done + [cur]) && |t| == |done| + 2 && t[|done| + 1] == None
    ensures buf[wp := NUL] == Joined(done + [cur])
    ensures t == ArgTable(done + [cur])
  {
    var args := done + [cur];
    ArgSpaceAppend(done, cur);
    JoinedAppend(done, cur);
    assert buf[wp := NUL] == buf[..wp] + [NUL];
    assert args[..|done|] == done;
    forall k | 0 <= k < |args|
      ensures t[k] == Some(Start(args, k))
    {
      assert t[k] == Starts(done)[k];
      StartsAt(done, k);
      assert args[..k] == done[..k];
    }
    TableOfStarts(t, args);
  }

  /** Stores one character of the current argument at the write position. */
  method PutChar(argvBuffer: array<char>, argvTable: array<Option<nat>>, writePtr: nat, x: char,
                 ghost done: seq<seq<char>>, ghost cur: seq<char>)
    requires Filled(argvBuffer[..], argvTable[..], writePtr, done, cur) && writePtr < argvBuffer.Length
    modifies argvBuffer
    ensures Filled(argvBuffer[..], argvTable[..], writePtr + 1, done, cur + [x])
  {
    FilledChar(argvBuffer[..], argvTable[..], writePtr, done, cur, x);
    argvBuffer[writePtr] := x;
  }

  /** Terminates the current argument and records where the next one
      starts. */
  method BeginArgument(argvBuffer: array<char>, argvTable: array<Option<nat>>, writePtr: nat, curArg: nat,
                       ghost done: seq<seq<char>>, ghost cur: seq<char>)
    requires Filled(argvBuffer[..], argvTable[..], writePtr, done, cur) && writePtr < argvBuffer.Length
    requires curArg == |done| && curArg + 1 < argvTable.Length
    modifies argvBuffer, argvTable
    ensures Filled(argvBuffer[..], argvTable[..], writePtr + 1, done + [cur], [])
    ensures forall k :: 0 <= k < argvTable.Length && k != curArg + 1 ==> argvTable[k] == old(argvTable[k])
  {
    FilledNewArg(argvBuffer[..], argvTable[..], writePtr, done, cur);
    argvBuffer[writePtr] := NUL;
    argvTable[curArg + 1] := Some(writePtr + 1);
  }

  /** The inner loop of parse_command that skips consecutive spaces: it stops
      at the last space of the run, which scans like the first. */
  method SkipSpaceRun(command: seq<char>, i: nat, ghost cur: seq<char>, ghost done: seq<seq<char>>) returns (j: nat)
    requires i < |command| && command[i] == SPACE
    ensures i <= j < |command| && command[j] == SPACE && (j + 1 < |command| ==> command[j + 1] != SPACE)
    ensures Scan(command, j, false, cur, done) == Scan(command, i, false, cur, done)
    ensures SpaceFrom(command, j, false) == SpaceFrom(command, i, false)
  {
    j := i;
    while j + 1 < |command| && command[j + 1] == SPACE
      invariant i <= j < |command| && command[j] == SPACE
      invariant Scan(command, j, false, cur, done) == Scan(command, i, false, cur, done)
      invariant SpaceFrom(command, j, false) == SpaceFrom(command, i, false)
    {
      StepSpaceRun(command, j, cur, done);
      j := j + 1;
    }
  }

  /** The main loop of parse_command, from the first character after the
      leading spaces: it copies every argument into the buffer, terminating
      each one, and records where each starts. */
  method CopyArguments(command: seq<char>, start: nat, argvTable: array<Option<nat>>, argvBuffer: array<char>,
                       ghost res: (bool, seq<seq<char>>))
    returns (ok: bool)
    requires start <= |command| && res == Scan(command, start, false, [], [])
    requires argvBuffer.Length == SpaceFrom(command, start, false) && argvTable.Length == |res.1| + 1
    requires argvTable[0] == Some(0) && argvTable[|res.1|] == None
    modifies argvTable, argvBuffer
    ensures ok == res.0
    ensures argvTable[..] == ArgTable(res.1)
    ensures argvBuffer[..] == Joined(res.1)
  {
    var writePtr := 0;
    var curArg := 0;
    var inQuote := false;
    var i := start;
    ghost var cur: seq<char> := [];
    ghost var done: seq<seq<char>> := [];
    while i < |command|
      invariant i <= |command|
      invariant res == Scan(command, i, inQuote, cur, done)
      invariant argvBuffer.Length == writePtr + SpaceFrom(command, i, inQuote)
      invariant curArg == |done| < |res.1| && argvTable.Length == |res.1| + 1
      invariant Filled(argvBuffer[..], argvTable[..], writePtr, done, cur) && argvTable[|res.1|] == None
      decreases |command| - i
    {
      if command[i] == QUOTE {
        if i + 1 < |command| && command[i + 1] == QUOTE {
          StepQuotePair(command, i, inQuote, cur, done);
          PutChar(argvBuffer, argvTable, writePtr, QUOTE, done, cur);
          cur := cur + [QUOTE];
          writePtr := writePtr + 1;
          i := i + 2;
        } else {
          StepLoneQuote(command, i, inQuote, cur, done);
          inQuote := !inQuote;
          i := i + 1;
        }
      } else if command[i] == SPACE && !inQuote {
        i := SkipSpaceRun(command, i, cur, done);
        if i + 1 == |command| {
          StepTrailingSpace(command, i, cur, done);
          break;
        }
        StepNewArgument(command, i, cur, done);
        BeginArgument(argvBuffer, argvTable, writePtr, curArg, done, cur);
        writePtr := writePtr + 1;
        i := i + 1;
        curArg := curArg + 1;
        done := done + [cur];
        cur := [];
      } else {
        StepChar(command, i, inQuote, cur, done);
        PutChar(argvBuffer, argvTable, writePtr, command[i], done, cur);
        cur := cur + [command[i]];
        writePtr := writePtr + 1;
        i := i + 1;
      }
    }
    ok := !inQuote;
    FilledEnd(argvBuffer[..], argvTable[..], writePtr, done, cur);
    argvBuffer[writePtr] := NUL;
  }

  /** parse_command with its terminator written where an argument ends: the
      table holds num_args buffer offsets and a null entry, the buffer holds
      exactly the arguments and their terminators, and the result is whether
      the quotes matched. The table and buffer are the sizes
      count_command_details reports. */
  method ParseCommand(command: seq<char>) returns (ok: bool, argvTable: array<Option<nat>>, argvBuffer: array<char>)
    ensures ok == Tokenize(command).0
    ensures argvTable[..] == ArgTable(Tokenize(command).1)
    ensures argvBuffer[..] == Joined(Tokenize(command).1)
  {
    var _, numArgs, reqdSpace := CountCommandDetails(command);
    argvTable := new Option<nat>[numArgs + 1];
    argvBuffer := new char[reqdSpace];
    argvTable[0] := Some(0);
    argvTable[numArgs] := None;
    var i := 0;
    while i < |command| && command[i] == SPACE
      invariant i <= |command| && SkipSpaces(command, i) == SkipSpaces(command, 0)
    {
      i := i + 1;
    }
    ScanSpace(command, i, false, [], []);
    ok := CopyArguments(command, i, argvTable, argvBuffer, Tokenize(command));
  }

  /** The buffer offsets parse_command's main loop stores to as written,
      from command position i with the write pointer at wp: every pass first
      clears the byte after the write pointer, then stores a character or a
      separator at the write pointer unless the pass only toggles quoting or
      stops at a trailing space. */
  function StoresAsWritten(c: seq<char>, i: nat, inQuote: bool, wp: nat): (w: seq<nat>)
    requires i <= |c|
    ensures i < |c| ==> |w| > 0 && w[0] == wp + 1
    decreases |c| - i
  {
    if i == |c| then []
    else if c[i] == QUOTE then
      if i + 1 < |c| && c[i + 1] == QUOTE then [wp + 1, wp] + StoresAsWritten(c, i + 2, inQuote, wp + 1)
      else [wp + 1] + StoresAsWritten(c, i + 1, !inQuote, wp)
    else if c[i] == SPACE && !inQuote then
      if i + 1 == |c| then [wp + 1]
      else if c[i + 1] == SPACE then [wp + 1] + StoresAsWritten(c, i + 1, inQuote, wp)
      else [wp + 1, wp] + StoresAsWritten(c, i + 1, inQuote, wp + 1)
    else [wp + 1, wp] + StoresAsWritten(c, i + 1, inQuote, wp + 1)
  }

  /** The offsets parse_command stores to for a whole command: a command
      with an argument starts by clearing offset 1. */
  function ParseStoresAsWritten(command: seq<char>): (w: seq<nat>)
    ensures SkipSpaces(command, 0) < |command| ==> |w| > 0 && w[0] == 1
  {
    StoresAsWritten(command, SkipSpaces(command, 0), false, 0)
  }

  /** The buffer parse_command fills is exactly reqd_space long, reqd_space
      being SpaceFrom of the command after its leading spaces: the buffer
      size it compares against is passed by value and never grows. For the
      command 'a' (a quoted one-letter argument) the loop's last pass, at the
      closing quote, clears offset 2 of a two-byte buffer. Text ending in a
      space after an argument does the same. */
  lemma ClosingQuoteOverrunsBuffer()
    ensures var command := [QUOTE, 'a', QUOTE];
      SpaceFrom(command, SkipSpaces(command, 0), false) == 2 && 2 in ParseStoresAsWritten(command)
    ensures var command := ['a', SPACE];
      SpaceFrom(command, SkipSpaces(command, 0), false) == 2 && 2 in ParseStoresAsWritten(command)
  {
    var command := [QUOTE, 'a', QUOTE];
    assert SkipSpaces(command, 0) == 0;
    assert StoresAsWritten(command, 3, false, 1) == [];
    assert StoresAsWritten(command, 2, true, 1) == [2];
    assert StoresAsWritten(command, 1, true, 0) == [1, 0, 2];
    assert ParseStoresAsWritten(command) == [1, 1, 0, 2];
    assert SpaceFrom(command, 2, true) == 1;
    assert SpaceFrom(command, 1, true) == 2;
    var command2 := ['a', SPACE];
    assert SkipSpaces(command2, 0) == 0;
    assert StoresAsWritten(command2, 1, false, 1) == [2];
    assert ParseStoresAsWritten(command2) == [1, 0, 2];
    assert SpaceFrom(command2, 1, false) == 1;
  }

  /** A command of spaces alone never enters the main loop, so the one-byte
      buffer that should hold argv[0]'s terminator is never written, while
      the corrected parse stores the empty argument. */
  lemma BlankCommandLeavesArgumentUnterminated()
    ensures ParseStoresAsWritten([SPACE]) == []
    ensures SpaceFrom([SPACE], SkipSpaces([SPACE], 0), false) == 1
    ensures Joined(Tokenize([SPACE]).1) == [NUL]
  {
    assert SkipSpaces([SPACE], 0) == 1;
    assert Tokenize([SPACE]).1 == [[]];
  }
}
