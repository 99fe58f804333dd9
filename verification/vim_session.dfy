/** The terminal-Vim session (Sources/Interface/Vim/Sessions/VimSession.swift):
    every command is a `vim --servername … --remote-send ":{command}<CR>"`
    and every query a `--remote-expr`. Unlike the gvim session it keeps no
    running flag and no input log: it remembers only whether it launched a
    process, and it never checks that before talking to the server. The
    state here is that flag plus, standing for the server, the list of key
    texts delivered to it. Whether each `--remote-send` exits with status 0
    comes in as a boolean, and what `--remote-expr` prints as an `Answer`. */
module VimSession {
  import opened Wrappers
  import Text
  import opened VimRemote

  /** `VimSessionError`, without the messages. Nothing raises `NotRunning`. */
  datatype VimError = StartupFailed | CommunicationFailed | InvalidResponse | NotRunning

  datatype Session = Session(process: bool, sent: seq<string>)

  /** `init`: no process yet. */
  const Fresh: Session := Session(false, [])

  /** The keys `executeRemote` types for a command. */
  function Keys(command: string): string {
    ":" + command + "<CR>"
  }

  // ------------------------------------------------------------ the channel

  /** `executeRemote`: the command is delivered when `vim --remote-send`
      exits with status 0; any other status is a communication failure. */
  function ExecuteRemote(s: Session, command: string, exitOk: bool): (r: (Session, Result<(), VimError>))
    ensures r.1.Success? <==> exitOk
    ensures r.1.Success? ==> r.0 == s.(sent := s.sent + [Keys(command)])
    ensures r.1.Failure? ==> r == (s, Failure(CommunicationFailed))
  {
    if exitOk then (s.(sent := s.sent + [Keys(command)]), Success(())) else (s, Failure(CommunicationFailed))
  }

  /** Several `executeRemote` calls in a row, each with its exit status
      (a missing one counting as a failure); the first failure stops the
      rest. */
  function SendCommands(s: Session, commands: seq<string>, exits: seq<bool>): (r: (Session, Result<(), VimError>))
    ensures r.1.Failure? ==> r.1.error == CommunicationFailed
    ensures r.0.process == s.process
    decreases |commands|
  {
    if |commands| == 0 then (s, Success(()))
    else
      var (s', res) := ExecuteRemote(s, commands[0], |exits| > 0 && exits[0]);
      if res.Failure? then (s', res) else SendCommands(s', commands[1..], exits[1..])
  }

  function KeysOfAll(commands: seq<string>): (r: seq<string>)
    ensures |r| == |commands|
    ensures forall i :: 0 <= i < |commands| ==> r[i] == Keys(commands[i])
  {
    if |commands| == 0 then [] else [Keys(commands[0])] + KeysOfAll(commands[1..])
  }

  /** When every run exits cleanly, all commands arrive, in order; when the
      first one fails, nothing arrives. */
  lemma {:induction false} SendCommandsDelivered(s: Session, commands: seq<string>, exits: seq<bool>)
    requires |exits| >= |commands| && forall i :: 0 <= i < |commands| ==> exits[i]
    ensures SendCommands(s, commands, exits) == (s.(sent := s.sent + KeysOfAll(commands)), Success(()))
    decreases |commands|
  {
    if |commands| == 0 {
      assert s.sent + [] == s.sent;
    } else {
      var s' := s.(sent := s.sent + [Keys(commands[0])]);
      SendCommandsDelivered(s', commands[1..], exits[1..]);
      KeysOfAllCons(s.sent, commands);
    }
  }

  lemma KeysOfAllCons(sent: seq<string>, commands: seq<string>)
    requires |commands| > 0
    ensures sent + [Keys(commands[0])] + KeysOfAll(commands[1..]) == sent + KeysOfAll(commands)
  {
    assert KeysOfAll(commands) == [Keys(commands[0])] + KeysOfAll(commands[1..]);
  }

  lemma SendCommandsFirstFails(s: Session, commands: seq<string>, exits: seq<bool>)
    requires |commands| > 0 && (|exits| == 0 || !exits[0])
    ensures SendCommands(s, commands, exits) == (s, Failure(CommunicationFailed))
  {
  }

  /** `executeRemoteExpr`: a non-zero exit is a communication failure and
      output that is not UTF-8 an invalid response. */
  function ExecuteRemoteExpr(answer: Answer): (r: Result<string, VimError>)
    ensures r.Success? <==> answer.Output? && answer.text.Some?
    ensures r.Success? ==> r.value == answer.text.value
    ensures answer.ExitFailure? ==> r == Failure(CommunicationFailed)
    ensures answer.Output? && answer.text.None? ==> r == Failure(InvalidResponse)
  {
    match answer
    case ExitFailure => Failure(CommunicationFailed)
    case Output(None) => Failure(InvalidResponse)
    case Output(Some(t)) => Success(t)
  }

  // -------------------------------------------------------------- lifecycle

  /** `start`: launch Vim (`launched` says whether that worked) and keep the
      process, then check that the server is listed. It does not look at a
      process started before. */
  function Start(s: Session, launched: bool, listed: bool): (r: (Session, Result<(), VimError>))
    ensures r.1.Success? <==> launched && listed
    ensures r.1.Failure? ==> r.1.error == StartupFailed
    ensures r.0.sent == s.sent
    ensures r.0.process == (launched || s.process)
  {
    if !launched then (s, Failure(StartupFailed))
    else if !listed then (s.(process := true), Failure(StartupFailed))
    else (s.(process := true), Success(()))
  }

  const QuitCommand: string := "qa!"

  /** `stop`: send `:qa!` whatever the state, ignore the outcome, and drop
      the process. */
  function Stop(s: Session, exitOk: bool): (r: Session)
    ensures !r.process
    ensures exitOk ==> r.sent == s.sent + [":qa!<CR>"]
    ensures !exitOk ==> r.sent == s.sent
  {
    assert Keys(QuitCommand) == ":qa!<CR>";
    ExecuteRemote(s, QuitCommand, exitOk).0.(process := false)
  }

  /** `isRunning`: the process runs and the server is listed. */
  function IsRunning(s: Session, alive: bool, listed: bool): (r: bool)
    ensures r ==> s.process
  {
    s.process && alive && listed
  }

  /** Stopping tries to quit the server even when nothing was started, and
      a stopped session never counts as running. */
  lemma StopAlwaysQuits(s: Session, alive: bool, listed: bool)
    ensures Stop(Stop(s, true), true).sent == s.sent + [":qa!<CR>", ":qa!<CR>"]
    ensures !IsRunning(Stop(s, true), alive, listed)
  {
  }

  // ---------------------------------------------------------------- input

  /** The `feedkeys` call `sendInput` builds: the input in a double-quoted
      string, backslashes doubled first and then quotes escaped, with the
      `n` flag (no remapping). */
  function FeedkeysCall(input: string): string {
    "feedkeys(\"" + DoubleQuoted(input) + "\", 'n')"
  }

  const FeedPrefix: string := "call feedkeys(\""
  const FeedSuffix: string := "\", 'n')"

  /** The keys an Ex command line queues: only a `:call` of `feedkeys` with
      the `n` flag queues any, namely the text of its string. A line that
      starts with a function name is not an Ex command at all (Vim reports
      E492) and queues nothing. */
  function FedKeys(command: string): Option<string> {
    if |command| >= |FeedPrefix| + |FeedSuffix|
       && command[..|FeedPrefix|] == FeedPrefix
       && command[|command| - |FeedSuffix|..] == FeedSuffix
    then ReadDoubleQuoted(command[|FeedPrefix|..|command| - |FeedSuffix|])
    else None
  }

  /** `sendInput` as written: the `feedkeys` call typed as a command line
      of its own, without `call`. */
  function SendInputCommandAsWritten(input: string): string {
    FeedkeysCall(input)
  }

  /** As written, no input ever reaches Vim's input queue. */
  lemma SendInputAsWrittenFeedsNothing(input: string)
    ensures FedKeys(SendInputCommandAsWritten(input)) == None
  {
    var command := SendInputCommandAsWritten(input);
    if |command| >= |FeedPrefix| + |FeedSuffix| {
      assert command[0] == 'f' && FeedPrefix[0] == 'c';
      assert command[..|FeedPrefix|][0] == 'f';
    }
  }

  /** The command meant: `call feedkeys(…)`. */
  function SendInputCommand(input: string): string {
    "call " + FeedkeysCall(input)
  }

  /** With `call`, Vim queues exactly the input, whatever it holds. */
  lemma SendInputFeedsInput(input: string)
    ensures FedKeys(SendInputCommand(input)) == Some(input)
  {
    var body := DoubleQuoted(input);
    var command := SendInputCommand(input);
    assert command == FeedPrefix + body + FeedSuffix;
    assert command[..|FeedPrefix|] == FeedPrefix;
    assert command[|command| - |FeedSuffix|..] == FeedSuffix;
    assert command[|FeedPrefix|..|command| - |FeedSuffix|] == body;
    ReadDoubleQuotedInverse(input);
  }

  /** `sendInput`, with the `call` put in: one command, which queues the
      input. */
  function SendInput(s: Session, input: string, exitOk: bool): (r: (Session, Result<(), VimError>))
    ensures r.1.Success? <==> exitOk
    ensures r.1.Failure? ==> r == (s, Failure(CommunicationFailed))
    ensures r.1.Success? ==> r.0.sent == s.sent + [Keys(SendInputCommand(input))]
                             && FedKeys(SendInputCommand(input)) == Some(input)
  {
    SendInputFeedsInput(input);
    ExecuteRemote(s, SendInputCommand(input), exitOk)
  }

  // ------------------------------------------------------------ buffer read

  /** The expression `getBufferLines` evaluates: `getbufline` from the
      1-based `start + 1` to `end` itself, or `'$'` for -1. */
  function BufferLinesQuery(buffer: int, start: int, end: int): string {
    "getbufline(" + Text.IntToString(buffer) + ", " + Text.IntToString(start + 1) + ", '"
    + (if end == -1 then "$" else Text.IntToString(end)) + "')"
  }

  /** The last-line argument that query passes. */
  function QueryLast(end: int): LineArg {
    if end == -1 then LastLine else Num(end)
  }

  lemma BufferLinesQueryText()
    ensures BufferLinesQuery(1, 0, -1) == "getbufline(1, 1, '$')"
    ensures BufferLinesQuery(1, 2, 5) == "getbufline(1, 3, '5')"
  {
    assert Text.IntToString(1) == "1" && Text.IntToString(3) == "3" && Text.IntToString(5) == "5";
  }

  /** The query returns exactly the 0-based lines `start` up to but not
      including `end`: reading uses the indexing writing means. */
  lemma BufferLinesQueryReads(b: Buffer, start: int, end: int)
    requires 0 <= start <= (if end == -1 then |b| else end) <= |b|
    ensures GetBufLine(b, start + 1, QueryLast(end)) == Some(b[start..if end == -1 then |b| else end])
  {
    GetBufLineRange(b, start, end);
  }

  /** `parseVimList`: trimmed, `[""]` for nothing, otherwise split at every
      newline character. Never empty, and no line holds a newline. */
  function ParseVimList(output: string): (r: seq<string>)
    ensures |r| >= 1
    ensures Text.TrimBlank(output) == "" ==> r == [""]
    ensures forall i, k :: 0 <= i < |r| && 0 <= k < |r[i]| ==> r[i][k] !in Text.NEWLINES
  {
    var trimmed := Text.TrimBlank(output);
    if trimmed == "" then [""]
    else
      var lines := Text.Split(trimmed, Text.NEWLINES);
      if |lines| == 1 && lines[0] == "" then [""] else lines
  }

  /** `getBufferLines`. */
  function GetBufferLines(buffer: int, start: int, end: int, answer: Answer): (r: Result<seq<string>, VimError>)
    ensures r.Success? <==> answer.Output? && answer.text.Some?
    ensures r.Success? ==> r.value == ParseVimList(answer.text.value) && |r.value| >= 1
    ensures answer.ExitFailure? ==> r == Failure(CommunicationFailed)
  {
    match ExecuteRemoteExpr(answer)
    case Failure(e) => Failure(e)
    case Success(out) => Success(ParseVimList(out))
  }

  /** Reading the printed list gives back the lines, as long as no line
      holds a newline character and the text neither starts nor ends with
      blank space. */
  lemma ParseVimListRoundTrip(lines: seq<string>)
    requires |lines| >= 1
    requires forall i, k :: 0 <= i < |lines| && 0 <= k < |lines[i]| ==> lines[i][k] !in Text.NEWLINES
    requires var j := Text.Join(lines, "\n");
             |j| > 0 && !Text.IsWhitespaceOrNewline(j[0]) && !Text.IsWhitespaceOrNewline(j[|j| - 1])
    ensures ParseVimList(PrintList(lines)) == lines
  {
    var j := Text.Join(lines, "\n");
    Text.TrimPadded("", j, "\n", Text.IsWhitespaceOrNewline);
    assert "" + j + "\n" == j + "\n";
    Text.SplitJoin(lines, '\n', Text.NEWLINES);
  }

  /** Where reading loses information: trailing empty lines and blank space
      at either end go, and no lines at all read as one empty line. */
  lemma ParseVimListDropsTrailingEmpty()
    ensures ParseVimList(PrintList(["x", ""])) == ["x"]
  {
    assert PrintList(["x", ""]) == "x" + "\n" + "" + "\n";
    Text.TrimPadded("", "x", "\n\n", Text.IsWhitespaceOrNewline);
    assert "" + "x" + "\n\n" == "x\n\n";
    Text.SplitNoSeparator("x", Text.NEWLINES);
  }

  /** Output that is all blank space, as for no lines at all, reads as one
      empty line. */
  lemma ParseVimListBlank(output: string)
    requires forall k :: 0 <= k < |output| ==> Text.IsWhitespaceOrNewline(output[k])
    ensures ParseVimList(output) == [""]
  {
    Text.TrimAllDropped(output, Text.IsWhitespaceOrNewline);
  }

  // ----------------------------------------------------------- buffer write

  /** The literal `setBufferLines` writes for a line: backslashes doubled,
      then quotes doubled, between single quotes. */
  function BackslashQuoted(line: string): string {
    SingleQuoted(Text.Replace(line, '\\', "\\\\"))
  }

  function BackslashQuoteAll(lines: seq<string>): (r: seq<string>)
    ensures |r| == |lines|
  {
    if |lines| == 0 then [] else [BackslashQuoted(lines[0])] + BackslashQuoteAll(lines[1..])
  }

  /** The commands `setBufferLines` sends, as written. No lines: one
      `deletebufline` from `start + 1` to `end + 1`, with a bare `$` for -1.
      Otherwise a `deletebufline` from `start + 1` to `'$'` for -1, or to
      `end + 1` when `start < end`, then one `appendbufline` after line
      `start`. */
  function SetLinesPlanAsWritten(buffer: int, start: int, end: int, lines: seq<string>): seq<Edit> {
    if |lines| == 0 then [DeleteBufLine(buffer, start + 1, if end == -1 then BareDollar else Num(end + 1))]
    else
      (if end == -1 then [DeleteBufLine(buffer, start + 1, LastLine)]
       else if start < end then [DeleteBufLine(buffer, start + 1, Num(end + 1))]
       else [])
      + [AppendBufLine(buffer, start, BackslashQuoteAll(lines))]
  }

  /** As written, replacing a range deletes one line past its end. */
  lemma RangeDeletesOneExtra()
    ensures Run(["a", "b", "c"], SetLinesPlanAsWritten(1, 0, 1, ["x"])) == Outcome(["x", "c"], 0)
    ensures Replacement(["a", "b", "c"], 0, 1, ["x"]) == Some(["x", "b", "c"])
  {
    var b: Buffer := ["a", "b", "c"];
    var append := AppendBufLine(1, 0, BackslashQuoteAll(["x"]));
    assert SetLinesPlanAsWritten(1, 0, 1, ["x"]) == [DeleteBufLine(1, 1, Num(2))] + [append];
    DeleteBufLineRange(b, 1, 1, 2, ["c"]);
    RunStep(b, DeleteBufLine(1, 1, Num(2)), [append], ["c"]);
    assert BackslashQuoteAll(["x"]) == QuoteAll(["x"]);
    AppendBufLineQuoted(["c"], 1, 0, ["x"]);
    assert ["c"][..0] + ["x"] + ["c"][0..] == ["x", "c"];
    RunStep(["c"], append, [], ["x", "c"]);
    assert b[..0] + ["x"] + b[1..] == ["x", "b", "c"];
  }

  /** As written, replacing the whole buffer leaves an empty line after the
      new ones, which reading the buffer back then hides. */
  lemma WholeReplaceLeavesEmptyLine()
    ensures Run(["a"], SetLinesPlanAsWritten(1, 0, -1, ["x"])) == Outcome(["x", ""], 0)
    ensures Replacement(["a"], 0, -1, ["x"]) == Some(["x"])
    ensures ParseVimList(PrintList(["x", ""])) == ["x"]
  {
    var b: Buffer := ["a"];
    var append := AppendBufLine(1, 0, BackslashQuoteAll(["x"]));
    assert SetLinesPlanAsWritten(1, 0, -1, ["x"]) == [DeleteBufLine(1, 1, LastLine)] + [append];
    DeleteBufLineToEnd(b, 1, 1);
    assert NonEmpty(b[..0]) == [""];
    RunStep(b, DeleteBufLine(1, 1, LastLine), [append], [""]);
    assert BackslashQuoteAll(["x"]) == QuoteAll(["x"]);
    AppendBufLineQuoted([""], 1, 0, ["x"]);
    assert [""][..0] + ["x"] + [""][0..] == ["x", ""];
    RunStep([""], append, [], ["x", ""]);
    assert b[..0] + ["x"] + b[1..] == ["x"];
    ParseVimListDropsTrailingEmpty();
  }

  /** As written, clearing the whole buffer passes a bare `$`, which Vim
      cannot evaluate, so the buffer stays as it was. */
  lemma ClearWholeRejected()
    ensures Run(["a"], SetLinesPlanAsWritten(1, 0, -1, [])) == Outcome(["a"], 1)
    ensures Replacement(["a"], 0, -1, []) == Some([""])
  {
    assert ["a"][..0] + [] + ["a"][1..] == [];
  }

  /** As written, a backslash arrives doubled: a single-quoted literal keeps
      backslashes as they are. */
  lemma BackslashDoubled()
    ensures Run(["z"], SetLinesPlanAsWritten(1, 0, 0, ["\\"])) == Outcome(["\\\\", "z"], 0)
    ensures Replacement(["z"], 0, 0, ["\\"]) == Some(["\\", "z"])
  {
    var append := AppendBufLine(1, 0, BackslashQuoteAll(["\\"]));
    assert SetLinesPlanAsWritten(1, 0, 0, ["\\"]) == [] + [append];
    assert Text.Replace("\\", '\\', "\\\\") == "\\\\";
    assert BackslashQuoted("\\") == "\\\\";
    assert BackslashQuoteAll(["\\"]) == QuoteAll(["\\\\"]);
    AppendBufLineQuoted(["z"], 1, 0, ["\\\\"]);
    assert ["z"][..0] + ["\\\\"] + ["z"][0..] == ["\\\\", "z"];
    RunStep(["z"], append, [], ["\\\\", "z"]);
    assert ["z"][..0] + ["\\"] + ["z"][0..] == ["\\", "z"];
  }

  /** The commands meant: the lines, each with its quotes doubled only, go
      in after line `start` first; then the old lines, which now start
      `|lines|` further down, are deleted up to `end` (or to the last line
      for -1). The buffer never runs empty in between. */
  function CorrectedSetLinesPlan(buffer: int, start: int, end: int, lines: seq<string>): seq<Edit> {
    [AppendBufLine(buffer, start, QuoteAll(lines))]
    + (if end == -1 then [DeleteBufLine(buffer, start + |lines| + 1, LastLine)]
       else if start < end then [DeleteBufLine(buffer, start + |lines| + 1, Num(end + |lines|))]
       else [])
  }

  /** The corrected commands do what `setBufferLines` means, with none
      rejected, for every range inside the buffer. */
  lemma CorrectedSetLinesMeetsReplacement(b: Buffer, buffer: int, start: int, end: int, lines: seq<string>)
    requires |b| >= 1 && Replacement(b, start, end, lines).Some?
    ensures Run(b, CorrectedSetLinesPlan(buffer, start, end, lines)) == Outcome(Replacement(b, start, end, lines).value, 0)
  {
    if end == -1 {
      CorrectedToEnd(b, buffer, start, lines);
    } else if start < end {
      CorrectedRange(b, buffer, start, end, lines);
    } else {
      CorrectedInsert(b, buffer, start, lines);
      assert b[..start] + lines + b[end..] == b[..start] + lines + b[start..];
    }
  }

  lemma CorrectedToEnd(b: Buffer, buffer: int, start: int, lines: seq<string>)
    requires |b| >= 1 && 0 <= start <= |b|
    ensures Run(b, CorrectedSetLinesPlan(buffer, start, -1, lines)) == Outcome(NonEmpty(b[..start] + lines + b[|b|..]), 0)
  {
    var mid := b[..start] + lines + b[start..];
    var append := AppendBufLine(buffer, start, QuoteAll(lines));
    var del := DeleteBufLine(buffer, start + |lines| + 1, LastLine);
    AppendBufLineQuoted(b, buffer, start, lines);
    assert CorrectedSetLinesPlan(buffer, start, -1, lines) == [append] + [del];
    RunStep(b, append, [del], mid);
    if start < |b| {
      SpliceSlices(b, start, |b|, lines);
      DeleteBufLineToEnd(mid, buffer, start + |lines| + 1);
      RunStep(mid, del, [], NonEmpty(mid[..start + |lines|]));
    } else {
      assert mid == b[..start] + lines + b[|b|..];
      RunStep(mid, del, [], mid);
    }
  }

  lemma CorrectedRange(b: Buffer, buffer: int, start: int, end: int, lines: seq<string>)
    requires 0 <= start < end <= |b|
    ensures Run(b, CorrectedSetLinesPlan(buffer, start, end, lines)) == Outcome(NonEmpty(b[..start] + lines + b[end..]), 0)
  {
    var mid := b[..start] + lines + b[start..];
    var append := AppendBufLine(buffer, start, QuoteAll(lines));
    var del := DeleteBufLine(buffer, start + |lines| + 1, Num(end + |lines|));
    AppendBufLineQuoted(b, buffer, start, lines);
    assert CorrectedSetLinesPlan(buffer, start, end, lines) == [append] + [del];
    RunStep(b, append, [del], mid);
    DeleteShiftedRange(b, buffer, start, end, lines, mid);
  }

  /** Once the lines are in, the old range sits `|lines|` further down. */
  lemma DeleteShiftedRange(b: Buffer, buffer: int, start: int, end: int, lines: seq<string>, mid: Buffer)
    requires 0 <= start < end <= |b| && mid == b[..start] + lines + b[start..]
    ensures Run(mid, [DeleteBufLine(buffer, start + |lines| + 1, Num(end + |lines|))])
            == Outcome(NonEmpty(b[..start] + lines + b[end..]), 0)
  {
    var del := DeleteBufLine(buffer, start + |lines| + 1, Num(end + |lines|));
    SpliceSlices(b, start, end, lines);
    var kept := b[..start] + lines + b[end..];
    assert kept == mid[..(start + |lines| + 1) - 1] + mid[end + |lines|..];
    DeleteBufLineRange(mid, buffer, start + |lines| + 1, end + |lines|, kept);
    RunStep(mid, del, [], NonEmpty(kept));
    assert [del] + [] == [del];
  }

  lemma CorrectedInsert(b: Buffer, buffer: int, start: int, lines: seq<string>)
    requires |b| >= 1 && 0 <= start <= |b|
    ensures Run(b, CorrectedSetLinesPlan(buffer, start, start, lines)) == Outcome(NonEmpty(b[..start] + lines + b[start..]), 0)
  {
    var mid := b[..start] + lines + b[start..];
    var append := AppendBufLine(buffer, start, QuoteAll(lines));
    AppendBufLineQuoted(b, buffer, start, lines);
    assert CorrectedSetLinesPlan(buffer, start, start, lines) == [append] + [];
    RunStep(b, append, [], mid);
  }

  /** Writing the whole buffer and reading it back gives the lines, for
      lines the printed list can carry. */
  lemma WriteThenRead(b: Buffer, buffer: int, lines: seq<string>)
    requires |b| >= 1 && |lines| >= 1
    requires forall i, k :: 0 <= i < |lines| && 0 <= k < |lines[i]| ==> lines[i][k] !in Text.NEWLINES
    requires var j := Text.Join(lines, "\n");
             |j| > 0 && !Text.IsWhitespaceOrNewline(j[0]) && !Text.IsWhitespaceOrNewline(j[|j| - 1])
    ensures var written := Run(b, CorrectedSetLinesPlan(buffer, 0, -1, lines)).buffer;
            && written == lines
            && GetBufLine(written, 1, QueryLast(-1)) == Some(lines)
            && ParseVimList(PrintList(lines)) == lines
  {
    CorrectedToEnd(b, buffer, 0, lines);
    assert b[..0] + lines + b[|b|..] == lines;
    BufferLinesQueryReads(lines, 0, -1);
    assert lines[0..] == lines;
    ParseVimListRoundTrip(lines);
  }

  function CommandTexts(plan: seq<Edit>): (r: seq<string>)
    ensures |r| == |plan|
    ensures forall i :: 0 <= i < |plan| ==> r[i] == CommandText(plan[i])
  {
    if |plan| == 0 then [] else [CommandText(plan[0])] + CommandTexts(plan[1..])
  }

  /** `setBufferLines`, sending the corrected commands; when every run exits
      cleanly they all arrive, and they do what the call means. */
  function SetBufferLines(s: Session, buffer: int, start: int, end: int, lines: seq<string>, exits: seq<bool>): (r: (Session, Result<(), VimError>))
    ensures r.0.process == s.process
    ensures r.1.Failure? ==> r.1.error == CommunicationFailed
    ensures |exits| >= 2 && exits[0] && exits[1] ==>
              r == (s.(sent := s.sent + KeysOfAll(CommandTexts(CorrectedSetLinesPlan(buffer, start, end, lines)))), Success(()))
  {
    var commands := CommandTexts(CorrectedSetLinesPlan(buffer, start, end, lines));
    if |exits| >= 2 && exits[0] && exits[1] then
      SendCommandsDelivered(s, commands, exits);
      SendCommands(s, commands, exits)
    else SendCommands(s, commands, exits)
  }

  // ---------------------------------------------------------------- cursor

  const LineQuery: string := "line('.')"
  const ColQuery: string := "col('.')"

  /** A number Vim printed: trimmed, then read as a whole integer. */
  function ParseNumber(output: string): Option<int> {
    Text.ParseInt(Text.TrimBlank(output))
  }

  /** `getCursorPosition`: the line, then the column, each read as a
      number; the window is not looked at. */
  function GetCursorPosition(window: int, lineAnswer: Answer, colAnswer: Answer): (r: Result<(int, int), VimError>)
    ensures lineAnswer.ExitFailure? ==> r == Failure(CommunicationFailed)
    ensures r.Success? <==> (&& lineAnswer.Output? && lineAnswer.text.Some? && colAnswer.Output? && colAnswer.text.Some?
                             && PositionOf(ParseNumber(lineAnswer.text.value), ParseNumber(colAnswer.text.value)).Success?)
    ensures r.Success? ==> r == PositionOf(ParseNumber(lineAnswer.text.value), ParseNumber(colAnswer.text.value))
  {
    match ExecuteRemoteExpr(lineAnswer)
    case Failure(e) => Failure(e)
    case Success(line) =>
      match ExecuteRemoteExpr(colAnswer)
      case Failure(e) => Failure(e)
      case Success(col) => PositionOf(ParseNumber(line), ParseNumber(col))
  }

  /** The 0-based position from the two numbers read: each less one, and
      nothing clamped; either not being a number is an invalid response. */
  function PositionOf(line: Option<int>, col: Option<int>): (r: Result<(int, int), VimError>)
    ensures r.Success? <==> line.Some? && col.Some?
    ensures r.Success? ==> r.value.0 + 1 == line.value && r.value.1 + 1 == col.value
    ensures r.Failure? ==> r.error == InvalidResponse
  {
    if line.Some? && col.Some? then Success((line.value - 1, col.value - 1)) else Failure(InvalidResponse)
  }

  /** `setCursorPosition`: `call cursor(row + 1, col + 1)`. */
  function CursorCommand(row: int, col: int): string {
    "call cursor(" + Text.IntToString(row + 1) + ", " + Text.IntToString(col + 1) + ")"
  }

  function SetCursorPosition(s: Session, window: int, row: int, col: int, exitOk: bool): (r: (Session, Result<(), VimError>))
    ensures r.1.Success? <==> exitOk
    ensures r.1.Success? ==> r.0.sent == s.sent + [":call cursor(" + Text.IntToString(row + 1) + ", " + Text.IntToString(col + 1) + ")<CR>"]
  {
    assert Keys(CursorCommand(row, col))
           == ":call cursor(" + Text.IntToString(row + 1) + ", " + Text.IntToString(col + 1) + ")<CR>";
    ExecuteRemote(s, CursorCommand(row, col), exitOk)
  }

  /** A printed number reads back as itself. */
  lemma PrintedNumber(n: int)
    requires Text.INT64_MIN <= n <= Text.INT64_MAX
    ensures ParseNumber(Text.IntToString(n) + "\n") == Some(n)
  {
    var d := Text.IntToString(n);
    Text.IntToStringChars(n);
    Text.TrimPadded("", d, "\n", Text.IsWhitespaceOrNewline);
    assert "" + d + "\n" == d + "\n";
    Text.ParseIntToString(n);
  }

  /** When Vim answers `line('.')` and `col('.')` with the 1-based position
      `cursor` was given, reading gives back the 0-based one. */
  lemma CursorRoundTrip(window: int, row: int, col: int)
    requires Text.INT64_MIN <= row + 1 <= Text.INT64_MAX && Text.INT64_MIN <= col + 1 <= Text.INT64_MAX
    ensures GetCursorPosition(window, Output(Some(Text.IntToString(row + 1) + "\n")),
                              Output(Some(Text.IntToString(col + 1) + "\n")))
            == Success((row, col))
  {
    PrintedNumber(row + 1);
    PrintedNumber(col + 1);
  }

  /** Unlike the gvim session, nothing is clamped, and text that is not a
      number is an error rather than a default. */
  lemma CursorNotClamped(window: int)
    ensures forall line, col :: ParseNumber(line) == Some(0) && ParseNumber(col) == Some(0) ==>
              GetCursorPosition(window, Output(Some(line)), Output(Some(col))) == Success((-1, -1))
  {
    forall line, col | ParseNumber(line) == Some(0) && ParseNumber(col) == Some(0)
      ensures GetCursorPosition(window, Output(Some(line)), Output(Some(col))) == Success((-1, -1))
    {
      assert PositionOf(Some(0), Some(0)) == Success((-1, -1));
    }
  }

  lemma CursorRejectsText(window: int)
    ensures GetCursorPosition(window, Output(Some("x")), Output(Some("1"))) == Failure(InvalidResponse)
    ensures GetCursorPosition(window, Output(None), Output(Some("1"))) == Failure(InvalidResponse)
  {
    Text.TrimPadded("", "x", "", Text.IsWhitespaceOrNewline);
    assert "" + "x" + "" == "x";
    Text.ParseIntRejects("x");
  }

  // ------------------------------------------------------------------ mode

  const ModeQuery: string := "mode(1)"

  /** `getMode`'s test: an `r` (the hit-enter, more and confirm prompts) or
      a `!` (a shell command running) anywhere in the mode. */
  predicate Blocking(mode: string) {
    'r' in mode || '!' in mode
  }

  /** `getMode`: the trimmed `mode(1)` and whether it blocks. */
  function GetMode(answer: Answer): (r: Result<(string, bool), VimError>)
    ensures r.Success? <==> answer.Output? && answer.text.Some?
    ensures answer.ExitFailure? ==> r == Failure(CommunicationFailed)
    ensures r.Success? ==> r.value.0 == Text.TrimBlank(answer.text.value)
    ensures r.Success? ==> (r.value.1 <==> 'r' in r.value.0 || '!' in r.value.0)
  {
    match ExecuteRemoteExpr(answer)
    case Failure(e) => Failure(e)
    case Success(out) =>
      var mode := Text.TrimBlank(out);
      Success((mode, Blocking(mode)))
  }

  /** The prompts and a running shell command block; normal, insert,
      visual and replace modes (whose `R` is upper case) do not. The test
      also catches the command-line overstrike modes `cr` and `cvr`. */
  lemma BlockingModes()
    ensures Blocking("r") && Blocking("rm") && Blocking("r?") && Blocking("!")
    ensures !Blocking("n") && !Blocking("i") && !Blocking("v") && !Blocking("V") && !Blocking("c")
    ensures !Blocking("R") && !Blocking("Rv") && !Blocking("niR") && !Blocking("no")
    ensures Blocking("cr") && Blocking("cvr")
  {
    assert "rm"[0] == 'r' && "r?"[0] == 'r' && "cr"[1] == 'r' && "cvr"[2] == 'r';
  }
}
