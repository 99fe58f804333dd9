/** The gvim-backed session (Sources/Interface/Vim/Sessions/GvimSession.swift):
    every command is a `gvim --servername … --remote-send` of keys and every
    query a `--remote-expr`. The session state keeps what the class keeps
    that matters to its callers: the running flag, the server name, the
    recorded inputs and, standing for the server, the list of key texts sent
    to it. Processes, the temporary directory and the sleeps are left out;
    what `--remote-expr` prints comes in as an `Answer`. */
module GvimSession {
  import opened Wrappers
  import Text
  import opened VimRemote

  /** `GvimSessionError`, without the messages. `SystemError` stands for the
      Foundation errors `start` lets through (creating the directory,
      launching the process). */
  datatype GvimError = StartupFailed | CommunicationFailed | InvalidResponse | NotRunning | SystemError

  datatype Session = Session(running: bool, serverName: Option<string>, inputs: seq<string>, sent: seq<string>)

  /** A running session always has a server to talk to. */
  predicate Valid(s: Session) {
    s.running ==> s.serverName.Some?
  }

  /** `init()`. */
  const Fresh: Session := Session(false, None, [], [])

  const Esc: char := '\U{001B}'

  /** What `start` sends once the server is up: clear the first line, then
      make sure of normal mode. */
  const StartupKeys: seq<string> := [[Esc] + ":call setline(1, '')<CR>", [Esc]]

  const QuitKeys: string := ":qall!<CR>"

  /** `sendServerCommand`: needs a server name. */
  function Send(s: Session, keys: string): (r: (Session, Result<(), GvimError>))
    ensures s.serverName.None? <==> r.1.Failure?
    ensures r.1.Failure? ==> r == (s, Failure(NotRunning))
    ensures r.1.Success? ==> r.0 == s.(sent := s.sent + [keys])
  {
    if s.serverName.None? then (s, Failure(NotRunning)) else (s.(sent := s.sent + [keys]), Success(()))
  }

  function SendAll(s: Session, keys: seq<string>): (r: (Session, Result<(), GvimError>))
    requires s.serverName.Some?
    ensures r.1.Success? && r.0 == s.(sent := s.sent + keys)
  {
    (s.(sent := s.sent + keys), Success(()))
  }

  /** `start`: nothing to do when running. `launched` says whether creating
      the directory and launching gvim worked, `listed` whether the server
      then showed up in `--serverlist` within the five attempts; the name is
      recorded as soon as the process runs. */
  function Start(s: Session, name: string, launched: bool, listed: bool): (r: (Session, Result<(), GvimError>))
    requires Valid(s)
    ensures Valid(r.0) && r.0.inputs == s.inputs
    ensures s.running ==> r == (s, Success(()))
    ensures !s.running && !launched ==> r == (s, Failure(SystemError))
    ensures !s.running && launched && !listed ==> !r.0.running && r.0.serverName == Some(name) && r.1 == Failure(StartupFailed)
    ensures !s.running && launched && listed ==>
              r.1.Success? && r.0.running && r.0.serverName == Some(name) && r.0.sent == s.sent + StartupKeys
  {
    if s.running then (s, Success(()))
    else if !launched then (s, Failure(SystemError))
    else if !listed then (s.(serverName := Some(name)), Failure(StartupFailed))
    else
      var (s', _) := SendAll(s.(serverName := Some(name)), StartupKeys);
      (s'.(running := true), Success(()))
  }

  /** `stop`: quit the server if there is one, then forget it. */
  function Stop(s: Session): (r: Session)
    ensures !r.running && Valid(r) && r.inputs == s.inputs
    ensures !s.running ==> r == s
    ensures s.running ==> r.serverName.None?
                          && r.sent == s.sent + (if s.serverName.Some? then [QuitKeys] else [])
  {
    if !s.running then s
    else
      var s' := if s.serverName.Some? then Send(s, QuitKeys).0 else s;
      s'.(serverName := None, running := false)
  }

  /** `isRunning`. */
  function IsRunning(s: Session): bool {
    s.running
  }

  /** `sendInput`: the input is recorded first, whether or not the session
      runs, then sent as keys. */
  function SendInput(s: Session, input: string): (r: (Session, Result<(), GvimError>))
    requires Valid(s)
    ensures Valid(r.0) && r.0.inputs == s.inputs + [input] && r.0.running == s.running
    ensures r.1.Success? <==> s.running
    ensures !s.running ==> r.1 == Failure(NotRunning) && r.0.sent == s.sent
    ensures s.running ==> r.0.sent == s.sent + [input]
  {
    var s' := s.(inputs := s.inputs + [input]);
    if !s.running then (s', Failure(NotRunning)) else Send(s', input)
  }

  /** `getInputs`. */
  function GetInputs(s: Session): seq<string> {
    s.inputs
  }

  /** The checks every buffer and cursor call makes first. */
  function CheckRunning(s: Session): (r: Result<(), GvimError>)
    ensures r.Success? <==> s.running && s.serverName.Some?
    ensures !s.running ==> r == Failure(NotRunning)
  {
    if !s.running || s.serverName.None? then Failure(NotRunning) else Success(())
  }

  /** Only buffers 0 and 1 exist. */
  function CheckBuffer(s: Session, buffer: int): (r: Result<(), GvimError>)
    ensures r.Success? <==> s.running && s.serverName.Some? && (buffer == 0 || buffer == 1)
    ensures !s.running ==> r == Failure(NotRunning)
    ensures s.running && s.serverName.Some? && buffer != 0 && buffer != 1 ==> r == Failure(InvalidResponse)
  {
    if !s.running then Failure(NotRunning)
    else if buffer != 0 && buffer != 1 then Failure(InvalidResponse)
    else CheckRunning(s)
  }

  /** What a `--remote-expr` run yields. */
  function ExprOutput(a: Answer): (r: Result<Option<string>, GvimError>)
    ensures r.Failure? <==> a.ExitFailure?
    ensures r.Failure? ==> r.error == CommunicationFailed
  {
    match a
    case ExitFailure => Failure(CommunicationFailed)
    case Output(t) => Success(t)
  }

  function Max(a: int, b: int): int {
    if a >= b then a else b
  }

  // -------------------------------------------------------------- buffer read

  /** The expression `queryBufferLines` evaluates: the lines from the
      1-based `start + 1` (at least 1) to `end` (`$` for -1), joined with
      newlines. */
  function BufferLinesQuery(start: int, end: int): string {
    "join(getline(" + Text.IntToString(Max(1, start + 1)) + ", '"
    + (if end == -1 then "$" else Text.IntToString(end)) + "'), \"\\n\")"
  }

  lemma BufferLinesQueryText()
    ensures BufferLinesQuery(0, -1) == "join(getline(1, '$'), \"\\n\")"
    ensures BufferLinesQuery(-5, 3) == "join(getline(1, '3'), \"\\n\")"
  {
    assert Text.IntToString(1) == "1" && Text.IntToString(3) == "3";
  }

  /** How `queryBufferLines` reads the output: trimmed, one pair of
      surrounding single quotes dropped, split at `\n`; never empty. */
  function ParseBufferLines(out: Option<string>): (r: seq<string>)
    ensures |r| >= 1
    ensures out.None? ==> r == [""]
  {
    match out
    case None => [""]
    case Some(text) => BufferLines(text)
  }

  /** Trimmed, a pair of surrounding quotes dropped, split at newlines; never an empty list. */
  function BufferLines(text: string): (r: seq<string>)
    ensures |r| >= 1
  {
    Unquoted(Text.TrimBlank(text))
  }

  /** The trimmed output with a pair of surrounding quotes dropped, split at
      newlines. */
  function Unquoted(result: string): (r: seq<string>)
    ensures |r| >= 1
  {
    var clean :=
      if |result| >= 1 && result[0] == '\'' && result[|result| - 1] == '\'' then
        (if |result| >= 2 then result[1..|result| - 1] else "")
      else result;
    var lines := Text.Split(clean, {'\n'});
    if |lines| == 0 || (|lines| == 1 && lines[0] == "") then [""] else lines
  }

  /** `getBufferLines`. */
  function GetBufferLines(s: Session, buffer: int, start: int, end: int, answer: Answer): (r: Result<seq<string>, GvimError>)
    ensures r.Success? <==> CheckBuffer(s, buffer).Success? && answer.Output?
    ensures r.Success? ==> r.value == ParseBufferLines(answer.text)
    ensures !s.running ==> r == Failure(NotRunning)
  {
    match CheckBuffer(s, buffer)
    case Failure(e) => Failure(e)
    case Success(_) =>
      match ExprOutput(answer)
      case Failure(e) => Failure(e)
      case Success(out) => Success(ParseBufferLines(out))
  }

  /** Vim prints the joined lines followed by a newline. Reading that gives
      back the lines, as long as no line holds a newline and the text
      neither starts nor ends with blank space nor is wrapped in single
      quotes. */
  lemma ParseBufferLinesRoundTrip(lines: seq<string>)
    requires |lines| >= 1
    requires forall i, k :: 0 <= i < |lines| && 0 <= k < |lines[i]| ==> lines[i][k] != '\n'
    requires var j := Text.Join(lines, "\n");
             |j| > 0 && !Text.IsWhitespaceOrNewline(j[0]) && !Text.IsWhitespaceOrNewline(j[|j| - 1])
             && !(j[0] == '\'' && j[|j| - 1] == '\'')
    ensures ParseBufferLines(Some(Text.Join(lines, "\n") + "\n")) == lines
  {
    var j := Text.Join(lines, "\n");
    TrimNewline(j);
    Text.SplitJoin(lines, '\n', {'\n'});
    ParseTrimmed(j + "\n", j);
  }

  lemma TrimNewline(j: string)
    requires |j| > 0 && !Text.IsWhitespaceOrNewline(j[0]) && !Text.IsWhitespaceOrNewline(j[|j| - 1])
    ensures Text.TrimBlank(j + "\n") == j
  {
    Text.TrimPadded("", j, "\n", Text.IsWhitespaceOrNewline);
    assert "" + j + "\n" == j + "\n";
  }

  /** Unquoted output that trims to something is split as it stands. */
  lemma ParseTrimmed(out: string, j: string)
    requires Text.TrimBlank(out) == j && |j| > 0 && !(j[0] == '\'' && j[|j| - 1] == '\'')
    ensures ParseBufferLines(Some(out)) == Text.Split(j, {'\n'}) || Text.Split(j, {'\n'}) == [""]
  {
  }

  /** Where reading loses information: surrounding quotes and blank space at
      either end of the text go. */
  lemma ParseBufferLinesDropsQuotes()
    ensures ParseBufferLines(Some("'a'\n")) == ["a"]
  {
    Text.TrimPadded("", "'a'", "\n", Text.IsWhitespaceOrNewline);
    assert "" + "'a'" + "\n" == "'a'\n";
    var t := Text.TrimBlank("'a'\n");
    assert t == "'a'" && t[1..|t| - 1] == "a";
    Text.SplitNoSeparator("a", {'\n'});
  }

  /** Blank space around the text is ignored. */
  lemma ParseBufferLinesPadded(pre: string, text: string, post: string)
    requires |text| > 0 && !Text.IsWhitespaceOrNewline(text[0]) && !Text.IsWhitespaceOrNewline(text[|text| - 1])
    requires forall k :: 0 <= k < |pre| ==> Text.IsWhitespaceOrNewline(pre[k])
    requires forall k :: 0 <= k < |post| ==> Text.IsWhitespaceOrNewline(post[k])
    ensures ParseBufferLines(Some(pre + text + post)) == ParseBufferLines(Some(text))
  {
    Text.TrimPadded(pre, text, post, Text.IsWhitespaceOrNewline);
    Text.TrimPadded("", text, "", Text.IsWhitespaceOrNewline);
    assert "" + text + "" == text;
    assert Text.TrimBlank(pre + text + post) == Text.TrimBlank(text);
  }

  /** Output that is all blank space, the empty text included, reads as one
      empty line, as no output at all does. */
  lemma ParseBufferLinesBlank(text: string)
    requires forall k :: 0 <= k < |text| ==> Text.IsWhitespaceOrNewline(text[k])
    ensures ParseBufferLines(Some(text)) == [""] == ParseBufferLines(None)
  {
    Text.TrimAllDropped(text, Text.IsWhitespaceOrNewline);
  }

  // ------------------------------------------------------------- buffer write

  /** The edits `setBufferLinesViaVim` sends, as written. For `end` -1 the
      whole buffer is replaced, whatever `start` is. Otherwise the range is
      deleted and each line then goes in with `setline(1, …)` when it is the
      first line of an insertion at the top and with `append(n - 1, …)` for
      the 1-based `n = max(1, start) + index` otherwise. */
  function SetLinesPlan(start: int, end: int, lines: seq<string>): seq<Edit> {
    if end == -1 then [ExDelete(1, LastLine)] + WholeInserts(lines, 0)
    else (if start + 1 <= end then [ExDelete(start + 1, Num(end))] else []) + RangeInserts(start, lines, 0)
  }

  function WholeInserts(lines: seq<string>, i: nat): seq<Edit>
    decreases |lines| - i
  {
    if i >= |lines| then []
    else [if i == 0 then SetLine(1, SingleQuoted(lines[i])) else Append(LastLine, SingleQuoted(lines[i]))]
         + WholeInserts(lines, i + 1)
  }

  function RangeInserts(start: int, lines: seq<string>, i: nat): seq<Edit>
    decreases |lines| - i
  {
    if i >= |lines| then []
    else
      var lineNum := Max(1, start) + i;
      [if lineNum == 1 && start == 0 then SetLine(1, SingleQuoted(lines[i]))
       else Append(Num(lineNum - 1), SingleQuoted(lines[i]))]
      + RangeInserts(start, lines, i + 1)
  }

  /** Appending the lines one by one after the last line. */
  lemma {:induction false} WholeInsertsAppend(b: Buffer, lines: seq<string>, i: nat)
    requires 1 <= i <= |lines|
    ensures Run(b, WholeInserts(lines, i)) == Outcome(b + lines[i..], 0)
    decreases |lines| - i
  {
    if i == |lines| {
      assert b + lines[i..] == b;
    } else {
      var b' := b + [lines[i]];
      WholeInsertStep(b, lines, i);
      WholeInsertsAppend(b', lines, i + 1);
      AppendNext(b, lines, i);
    }
  }

  lemma AppendNext<T>(b: seq<T>, xs: seq<T>, i: nat)
    requires i < |xs|
    ensures b + [xs[i]] + xs[i + 1..] == b + xs[i..]
  {
    assert xs[i..] == [xs[i]] + xs[i + 1..];
  }

  lemma WholeInsertStep(b: Buffer, lines: seq<string>, i: nat)
    requires 1 <= i < |lines|
    ensures Run(b, WholeInserts(lines, i)) == Run(b + [lines[i]], WholeInserts(lines, i + 1))
  {
    var b' := b + [lines[i]];
    AppendQuoted(b, LastLine, lines[i]);
    assert b[..|b|] + [lines[i]] + b[|b|..] == b';
    RunStep(b, Append(LastLine, SingleQuoted(lines[i])), WholeInserts(lines, i + 1), b');
  }

  /** Replacing the whole buffer works, and ignores `start`. */
  lemma WholeBufferReplaced(b: Buffer, start: int, lines: seq<string>)
    requires |b| >= 1
    ensures Run(b, SetLinesPlan(start, -1, lines)) == Outcome(NonEmpty(lines), 0)
    ensures Replacement(b, 0, -1, lines) == Some(NonEmpty(lines))
  {
    var ins := WholeInserts(lines, 0);
    assert SetLinesPlan(start, -1, lines) == [ExDelete(1, LastLine)] + ins;
    assert b[..0] + b[|b|..] == [];
    assert ApplyEdit(b, ExDelete(1, LastLine)) == Some([""]);
    RunStep(b, ExDelete(1, LastLine), ins, [""]);
    WholeInsertsIntoEmpty(lines);
    ReplacementExtremes(b, 0, lines);
  }

  /** The inserts after deleting everything fill the one empty line left. */
  lemma WholeInsertsIntoEmpty(lines: seq<string>)
    ensures Run([""], WholeInserts(lines, 0)) == Outcome(NonEmpty(lines), 0)
  {
    if |lines| > 0 {
      SetLineQuoted([""], 1, lines[0]);
      assert [""][0 := lines[0]] == [lines[0]];
      assert WholeInserts(lines, 0) == [SetLine(1, SingleQuoted(lines[0]))] + WholeInserts(lines, 1);
      RunStep([""], SetLine(1, SingleQuoted(lines[0])), WholeInserts(lines, 1), [lines[0]]);
      WholeInsertsAppend([lines[0]], lines, 1);
      assert [lines[0]] + lines[1..] == lines;
    }
  }

  /** As written, an insertion at the top with `end` short of the buffer's
      end overwrites the first line left after the deletion. */
  lemma RangeAtTopOverwrites()
    ensures Run(["a", "b", "c"], SetLinesPlan(0, 1, ["x"])) == Outcome(["x", "c"], 0)
    ensures Replacement(["a", "b", "c"], 0, 1, ["x"]) == Some(["x", "b", "c"])
  {
    var b: Buffer := ["a", "b", "c"];
    var plan := SetLinesPlan(0, 1, ["x"]);
    assert RangeInserts(0, ["x"], 0) == [SetLine(1, SingleQuoted("x"))];
    assert plan == [ExDelete(1, Num(1))] + [SetLine(1, SingleQuoted("x"))];
    assert b[..0] + b[1..] == ["b", "c"];
    assert ApplyEdit(b, ExDelete(1, Num(1))) == Some(["b", "c"]);
    RunStep(b, ExDelete(1, Num(1)), [SetLine(1, SingleQuoted("x"))], ["b", "c"]);
    SetLineQuoted(["b", "c"], 1, "x");
    assert ["b", "c"][0 := "x"] == ["x", "c"];
    RunStep(["b", "c"], SetLine(1, SingleQuoted("x")), [], ["x", "c"]);
    assert b[..0] + ["x"] + b[1..] == ["x", "b", "c"];
  }

  /** As written, an insertion below the top lands one line early. */
  lemma RangeBelowTopOneEarly()
    ensures Run(["a", "b"], SetLinesPlan(1, 1, ["x"])) == Outcome(["x", "a", "b"], 0)
    ensures Replacement(["a", "b"], 1, 1, ["x"]) == Some(["a", "x", "b"])
  {
    var b: Buffer := ["a", "b"];
    assert RangeInserts(1, ["x"], 0) == [Append(Num(0), SingleQuoted("x"))];
    assert SetLinesPlan(1, 1, ["x"]) == [Append(Num(0), SingleQuoted("x"))] + [];
    AppendQuoted(b, Num(0), "x");
    assert b[..0] + ["x"] + b[0..] == ["x", "a", "b"];
    RunStep(b, Append(Num(0), SingleQuoted("x")), [], ["x", "a", "b"]);
    assert b[..1] + ["x"] + b[1..] == ["a", "x", "b"];
  }

  /** The range path with each line appended after the line before its
      place, and the old range deleted afterwards, so the buffer never runs
      empty in between. The whole-buffer path is kept. */
  function CorrectedSetLinesPlan(start: int, end: int, lines: seq<string>): seq<Edit> {
    if end == -1 then SetLinesPlan(start, end, lines)
    else
      AppendsAt(start, lines, 0)
      + (if start < end then [ExDelete(start + |lines| + 1, Num(end + |lines|))] else [])
  }

  function AppendsAt(start: int, lines: seq<string>, i: nat): seq<Edit>
    decreases |lines| - i
  {
    if i >= |lines| then [] else [Append(Num(start + i), SingleQuoted(lines[i]))] + AppendsAt(start, lines, i + 1)
  }

  lemma {:induction false} AppendsAtInsert(pre: Buffer, post: Buffer, lines: seq<string>, i: nat)
    requires i <= |lines|
    ensures Run(pre + lines[..i] + post, AppendsAt(|pre|, lines, i)) == Outcome(pre + lines + post, 0)
    decreases |lines| - i
  {
    if i == |lines| {
      assert lines[..i] == lines;
    } else {
      var b := pre + lines[..i] + post;
      var b' := pre + lines[..i + 1] + post;
      assert b[..|pre| + i] == pre + lines[..i] && b[|pre| + i..] == post;
      assert lines[..i + 1] == lines[..i] + [lines[i]];
      AppendQuoted(b, Num(|pre| + i), lines[i]);
      assert b[..|pre| + i] + [lines[i]] + b[|pre| + i..] == b';
      RunStep(b, Append(Num(|pre| + i), SingleQuoted(lines[i])), AppendsAt(|pre|, lines, i + 1), b');
      AppendsAtInsert(pre, post, lines, i + 1);
    }
  }

  /** The corrected plan does what `setBufferLines` means, with no command
      rejected, for every range inside the buffer (from the top when `end`
      is -1). */
  lemma CorrectedSetLinesMeetsReplacement(b: Buffer, start: int, end: int, lines: seq<string>)
    requires |b| >= 1 && Replacement(b, start, end, lines).Some?
    requires end == -1 ==> start == 0
    ensures Run(b, CorrectedSetLinesPlan(start, end, lines)) == Outcome(Replacement(b, start, end, lines).value, 0)
  {
    if end == -1 {
      WholeBufferReplaced(b, start, lines);
    } else {
      CorrectedRange(b, start, end, lines);
    }
  }

  lemma CorrectedRange(b: Buffer, start: int, end: int, lines: seq<string>)
    requires |b| >= 1 && 0 <= start <= end <= |b|
    ensures Run(b, CorrectedSetLinesPlan(start, end, lines)) == Outcome(NonEmpty(b[..start] + lines + b[end..]), 0)
  {
    AppendsInsertAll(b, start, lines);
    var mid := b[..start] + lines + b[start..];
    var appends := AppendsAt(start, lines, 0);
    if start < end {
      var del := ExDelete(start + |lines| + 1, Num(end + |lines|));
      assert CorrectedSetLinesPlan(start, end, lines) == appends + [del];
      RunConcat(b, appends, [del]);
      ExDeleteShifted(b, start, end, lines, mid);
    } else {
      assert CorrectedSetLinesPlan(start, end, lines) == appends + [];
      assert appends + [] == appends;
      assert b[..start] + lines + b[end..] == mid;
    }
  }

  /** The appends of the corrected plan put all the lines after line `start`. */
  lemma AppendsInsertAll(b: Buffer, start: int, lines: seq<string>)
    requires 0 <= start <= |b|
    ensures Run(b, AppendsAt(start, lines, 0)) == Outcome(b[..start] + lines + b[start..], 0)
  {
    var pre, post := b[..start], b[start..];
    assert lines[..0] == [];
    assert pre + [] == pre;
    assert pre + post == b;
    AppendsAtInsert(pre, post, lines, 0);
  }

  /** Once the lines are in, the old range sits `|lines|` further down. */
  lemma ExDeleteShifted(b: Buffer, start: int, end: int, lines: seq<string>, mid: Buffer)
    requires 0 <= start < end <= |b| && mid == b[..start] + lines + b[start..]
    ensures Run(mid, [ExDelete(start + |lines| + 1, Num(end + |lines|))])
            == Outcome(NonEmpty(b[..start] + lines + b[end..]), 0)
  {
    var del := ExDelete(start + |lines| + 1, Num(end + |lines|));
    SpliceSlices(b, start, end, lines);
    var kept := b[..start] + lines + b[end..];
    assert kept == mid[..(start + |lines| + 1) - 1] + mid[end + |lines|..];
    ExDeleteRange(mid, start + |lines| + 1, end + |lines|, kept);
    RunStep(mid, del, [], NonEmpty(kept));
    assert [del] + [] == [del];
  }

  /** `setBufferLines`: the checks, then the corrected plan's commands. */
  function SetBufferLines(s: Session, buffer: int, start: int, end: int, lines: seq<string>): (r: (Session, Result<(), GvimError>))
    requires Valid(s)
    ensures Valid(r.0) && r.0.running == s.running && r.0.inputs == s.inputs
    ensures r.1.Success? <==> CheckBuffer(s, buffer).Success?
    ensures r.1.Failure? ==> r.0 == s
    ensures r.1.Success? ==> r.0.sent == s.sent + KeysOf(CorrectedSetLinesPlan(start, end, lines))
  {
    match CheckBuffer(s, buffer)
    case Failure(e) => (s, Failure(e))
    case Success(_) => SendAll(s, KeysOf(CorrectedSetLinesPlan(start, end, lines)))
  }

  /** Each command as the keys `--remote-send` types: `:`, the command,
      Enter. */
  function KeysOf(plan: seq<Edit>): (r: seq<string>)
    ensures |r| == |plan|
    ensures forall i :: 0 <= i < |plan| ==> r[i] == ":" + CommandText(plan[i]) + "<CR>"
  {
    seq(|plan|, i requires 0 <= i < |plan| => ":" + CommandText(plan[i]) + "<CR>")
  }

  // ------------------------------------------------------------------ cursor

  /** The 1-based Vim position for a 0-based one, at least 1. */
  function VimIndex(x: int): int {
    Max(1, x + 1)
  }

  /** The 0-based position for a 1-based Vim one, at least 0. */
  function ZeroBased(v: int): int {
    Max(0, v - 1)
  }

  /** Going to Vim and back keeps a position, and clamps a negative one to
      the first. */
  lemma IndexRoundTrip(x: int)
    ensures ZeroBased(VimIndex(x)) == Max(0, x)
    ensures x >= 0 ==> ZeroBased(VimIndex(x)) == x
    ensures VimIndex(ZeroBased(x + 1)) == Max(1, x + 1)
  {
  }

  /** `setCursorPosition`: `:{row}<CR>` then `{col}|`. */
  function SetCursorPosition(s: Session, window: int, row: int, col: int): (r: (Session, Result<(), GvimError>))
    requires Valid(s)
    ensures Valid(r.0) && r.0.running == s.running && r.0.inputs == s.inputs
    ensures r.1.Success? <==> s.running && s.serverName.Some? && window == 0
    ensures r.1.Failure? ==> r.0 == s
    ensures r.1.Success? ==>
              r.0.sent == s.sent + [":" + Text.IntToString(VimIndex(row)) + "<CR>", Text.IntToString(VimIndex(col)) + "|"]
  {
    if !s.running then (s, Failure(NotRunning))
    else if window != 0 then (s, Failure(InvalidResponse))
    else if s.serverName.None? then (s, Failure(NotRunning))
    else SendAll(s, [":" + Text.IntToString(VimIndex(row)) + "<CR>", Text.IntToString(VimIndex(col)) + "|"])
  }

  const CursorQuery: string := "string(getpos('.'))"

  /** How `queryServerCursor` reads `string(getpos('.'))`: quotes and
      brackets dropped, split at commas; with at least four fields the second
      and third are the 1-based line and column, a field that is not a
      number counting as 1. */
  function ParseCursor(out: Option<string>): (r: Result<(int, int), GvimError>)
    ensures r.Success? ==> r.value.0 >= 0 && r.value.1 >= 0
    ensures r.Failure? ==> r.error == InvalidResponse
  {
    ParseFields(CursorComponents(out))
  }

  /** The fields after the split: the second and third give the position. */
  function ParseFields(components: seq<string>): (r: Result<(int, int), GvimError>)
    ensures r.Success? <==> |components| >= 4
    ensures r.Success? ==> r.value == (ZeroBased(FieldValue(components[1])), ZeroBased(FieldValue(components[2])))
  {
    if |components| >= 4 then Success((ZeroBased(FieldValue(components[1])), ZeroBased(FieldValue(components[2]))))
    else Failure(InvalidResponse)
  }

  /** No output reads as the empty text, which is one empty field
      (`BlankComponents`). */
  function CursorComponents(out: Option<string>): (r: seq<string>)
    ensures out.None? ==> r == [""]
  {
    match out
    case None => [""]
    case Some(text) => Components(text)
  }

  /** Trimmed, quotes and brackets removed, split at commas. */
  function Components(text: string): seq<string> {
    Text.Split(Text.Remove(Text.Remove(Text.Remove(Text.TrimBlank(text), '\''), '['), ']'), {','})
  }

  /** A field's number, 1 when it is not one. */
  function FieldValue(field: string): int {
    var v := Text.ParseInt(Text.TrimSpaces(field));
    if v.Some? then v.value else 1
  }

  /** What Vim prints for `string(getpos('.'))` at a 1-based position: a
      list of the buffer (0 for the current one), line, column and offset. */
  function GetposText(line: int, column: int): string {
    "[" + Text.Join(GetposFields(line, column), ",") + "]"
  }

  function GetposFields(line: int, column: int): seq<string> {
    ["0", " " + Text.IntToString(line), " " + Text.IntToString(column), " 0"]
  }

  /** Reading the printed position gives back the 0-based cursor. */
  lemma CursorRoundTrip(row: nat, col: nat)
    requires row < Text.INT64_MAX && col < Text.INT64_MAX
    ensures ParseCursor(Some(GetposText(row + 1, col + 1) + "\n")) == Success((row, col))
  {
    var out := Some(GetposText(row + 1, col + 1) + "\n");
    var fields := GetposFields(row + 1, col + 1);
    GetposComponents(row + 1, col + 1);
    PrintedField(row + 1);
    PrintedField(col + 1);
    assert ParseCursor(out) == ParseFields(fields);
    FieldsAt(fields, row, col);
  }

  lemma FieldsAt(fields: seq<string>, row: nat, col: nat)
    requires |fields| >= 4 && FieldValue(fields[1]) == row + 1 && FieldValue(fields[2]) == col + 1
    ensures ParseFields(fields) == Success((row, col))
  {
  }

  /** Splitting the printed position gives back its four fields. */
  lemma GetposComponents(line: int, column: int)
    requires Text.INT64_MIN <= line <= Text.INT64_MAX && Text.INT64_MIN <= column <= Text.INT64_MAX
    ensures CursorComponents(Some(GetposText(line, column) + "\n")) == GetposFields(line, column)
  {
    var l, c := " " + Text.IntToString(line), " " + Text.IntToString(column);
    var fields := GetposFields(line, column);
    assert fields == ["0", l, c, " 0"];
    PrintedField(line);
    PrintedField(column);
    GetposFieldsFree(l, c);
    BracketedComponents(fields);
  }

  /** The four printed fields carry no quote, bracket or comma when the two
      numbers do not. */
  lemma GetposFieldsFree(l: string, c: string)
    requires '\'' !in l && '[' !in l && ']' !in l && ',' !in l
    requires '\'' !in c && '[' !in c && ']' !in c && ',' !in c
    ensures var fields := ["0", l, c, " 0"];
            forall i :: 0 <= i < |fields| ==> '\'' !in fields[i] && '[' !in fields[i] && ']' !in fields[i] && ',' !in fields[i]
  {
  }

  /** A printed integer after a space: free of quotes, brackets and commas,
      and read back as itself. */
  lemma PrintedField(n: int)
    requires Text.INT64_MIN <= n <= Text.INT64_MAX
    ensures var f := " " + Text.IntToString(n);
            '\'' !in f && '[' !in f && ']' !in f && ',' !in f && FieldValue(f) == n
  {
    PrintedFieldFree(Text.IntToString(n));
    PrintedFieldValue(n);
  }

  lemma PrintedFieldFree(d: string)
    requires forall i :: 0 <= i < |d| ==> Text.IsDigit(d[i]) || d[i] == '-'
    ensures var f := " " + d;
            '\'' !in f && '[' !in f && ']' !in f && ',' !in f
  {
  }

  lemma PrintedFieldValue(n: int)
    requires Text.INT64_MIN <= n <= Text.INT64_MAX
    ensures FieldValue(" " + Text.IntToString(n)) == n
  {
    var d := Text.IntToString(n);
    Text.IntToStringChars(n);
    Text.TrimPadded(" ", d, "", Text.IsWhitespace);
    assert " " + d + "" == " " + d;
    Text.ParseIntToString(n);
  }

  /** Fields free of quotes, brackets and commas, printed as a list, split
      back into themselves. */
  lemma BracketedComponents(fields: seq<string>)
    requires |fields| >= 1
    requires forall i :: 0 <= i < |fields| ==> '\'' !in fields[i] && '[' !in fields[i] && ']' !in fields[i] && ',' !in fields[i]
    ensures CursorComponents(Some("[" + Text.Join(fields, ",") + "]" + "\n")) == fields
  {
    var inner := Text.Join(fields, ",");
    JoinedFieldsFree(fields);
    TrimBracketed(inner);
    StripBrackets(inner);
    FieldsSplitBack(fields);
  }

  lemma JoinedFieldsFree(fields: seq<string>)
    requires forall i :: 0 <= i < |fields| ==> '\'' !in fields[i] && '[' !in fields[i] && ']' !in fields[i]
    ensures var inner := Text.Join(fields, ",");
            '\'' !in inner && '[' !in inner && ']' !in inner
  {
    Text.JoinFree(fields, ",", '\'');
    Text.JoinFree(fields, ",", '[');
    Text.JoinFree(fields, ",", ']');
  }

  lemma FieldsSplitBack(fields: seq<string>)
    requires |fields| >= 1 && forall i :: 0 <= i < |fields| ==> ',' !in fields[i]
    ensures Text.Split(Text.Join(fields, ","), {','}) == fields
  {
    forall i, k | 0 <= i < |fields| && 0 <= k < |fields[i]| ensures fields[i][k] !in {','} {
      assert fields[i][k] in fields[i];
    }
    Text.SplitJoin(fields, ',', {','});
  }

  lemma TrimBracketed(inner: string)
    ensures Text.TrimBlank("[" + inner + "]" + "\n") == "[" + inner + "]"
  {
    var g := "[" + inner + "]";
    Text.TrimPadded("", g, "\n", Text.IsWhitespaceOrNewline);
    assert "" + g + "\n" == g + "\n";
  }

  lemma StripBrackets(inner: string)
    requires '\'' !in inner && '[' !in inner && ']' !in inner
    ensures Text.Remove(Text.Remove(Text.Remove("[" + inner + "]", '\''), '['), ']') == inner
  {
    var g := "[" + inner + "]";
    assert g == ['['] + (inner + [']']);
    Text.RemoveAbsent(g, '\'');
    assert g[1..] == inner + [']'];
    Text.RemoveAbsent(inner + [']'], '[');
    Text.RemoveAppend(inner, [']'], ']');
    Text.RemoveAbsent(inner, ']');
    assert [']'][1..] == [];
  }

  /** Output without a comma is one field, so an invalid response. */
  lemma ParseCursorNoComma(text: string)
    requires ',' !in text
    ensures ParseCursor(Some(text)) == Failure(InvalidResponse)
  {
    CommaFreeComponents(text);
    assert CursorComponents(Some(text)) == Components(text);
  }

  /** Blank output, the empty text included, is one empty field. */
  lemma BlankComponents(text: string)
    requires forall k :: 0 <= k < |text| ==> Text.IsWhitespaceOrNewline(text[k])
    ensures Components(text) == [""]
  {
    Text.TrimAllDropped(text, Text.IsWhitespaceOrNewline);
  }

  lemma CommaFreeComponents(text: string)
    requires ',' !in text
    ensures |Components(text)| == 1
  {
    Text.TrimKeeps(text, Text.IsWhitespaceOrNewline);
    var stripped := Text.Remove(Text.Remove(Text.Remove(Text.TrimBlank(text), '\''), '['), ']');
    assert forall k :: 0 <= k < |stripped| ==> stripped[k] in stripped;
    Text.SplitNoSeparator(stripped, {','});
  }

  /** A line or column field without a digit counts as 1, so as 0 once
      shifted to 0-based. */
  lemma ParseFieldsNoDigits(components: seq<string>)
    requires |components| >= 4
    requires forall k :: 0 <= k < |components[1]| ==> !Text.IsDigit(components[1][k])
    requires forall k :: 0 <= k < |components[2]| ==> !Text.IsDigit(components[2][k])
    ensures ParseFields(components) == Success((0, 0))
  {
    FieldWithoutDigit(components[1]);
    FieldWithoutDigit(components[2]);
  }

  lemma FieldWithoutDigit(field: string)
    requires forall k :: 0 <= k < |field| ==> !Text.IsDigit(field[k])
    ensures FieldValue(field) == 1
  {
    var t := Text.TrimSpaces(field);
    Text.TrimKeeps(field, Text.IsWhitespace);
    forall k | 0 <= k < |t| ensures !Text.IsDigit(t[k]) {
      assert t[k] in t;
    }
    Text.ParseIntNeedsDigit(t);
  }

  /** `getCursorPosition`. */
  function GetCursorPosition(s: Session, window: int, answer: Answer): (r: Result<(int, int), GvimError>)
    ensures !s.running ==> r == Failure(NotRunning)
    ensures s.running && window != 0 ==> r == Failure(InvalidResponse)
    ensures CheckRunning(s).Success? && window == 0 && answer.ExitFailure? ==> r == Failure(CommunicationFailed)
    ensures CheckRunning(s).Success? && window == 0 && answer.Output? ==> r == ParseCursor(answer.text)
  {
    if !s.running then Failure(NotRunning)
    else if window != 0 then Failure(InvalidResponse)
    else
      match CheckRunning(s)
      case Failure(e) => Failure(e)
      case Success(_) =>
        match ExprOutput(answer)
        case Failure(e) => Failure(e)
        case Success(out) => ParseCursor(out)
  }

  // -------------------------------------------------------------------- mode

  const ModeQuery: string := "mode()"

  /** How `queryServerMode` reads `mode()`: trimmed with its quotes dropped,
      and `n` when the output is not text. */
  function ParseMode(out: Option<string>): (r: string)
    ensures '\'' !in r
    ensures out.None? ==> r == "n"
  {
    if out.None? then "n" else Text.Remove(Text.TrimBlank(out.value), '\'')
  }

  /** The mode reads back from any output that pads it with whitespace and
      newlines: in quotes, whatever it holds besides quotes, and bare, when
      its own ends are not blank. */
  lemma ParseModeReads(pre: string, m: string, post: string)
    requires forall i :: 0 <= i < |pre| ==> Text.IsWhitespaceOrNewline(pre[i])
    requires forall i :: 0 <= i < |post| ==> Text.IsWhitespaceOrNewline(post[i])
    requires '\'' !in m
    ensures ParseMode(Some(pre + "'" + m + "'" + post)) == m
    ensures |m| > 0 && !Text.IsWhitespaceOrNewline(m[0]) && !Text.IsWhitespaceOrNewline(m[|m| - 1]) ==>
              ParseMode(Some(pre + m + post)) == m
  {
    var quoted := "'" + m + "'";
    assert pre + "'" + m + "'" + post == pre + quoted + post;
    Text.TrimPadded(pre, quoted, post, Text.IsWhitespaceOrNewline);
    Text.RemoveAppend("'" + m, "'", '\'');
    Text.RemoveAppend("'", m, '\'');
    Text.RemoveAbsent(m, '\'');
    assert Text.Remove("'", '\'') == "";
    if |m| > 0 && !Text.IsWhitespaceOrNewline(m[0]) && !Text.IsWhitespaceOrNewline(m[|m| - 1]) {
      Text.TrimPadded(pre, m, post, Text.IsWhitespaceOrNewline);
    }
  }

  lemma ParseModeExamples()
    ensures ParseMode(Some("i\n")) == "i"
    ensures ParseMode(Some("'v'")) == "v"
  {
    Text.TrimPadded("", "i", "\n", Text.IsWhitespaceOrNewline);
    assert "" + "i" + "\n" == "i\n";
    Text.TrimPadded("", "'v'", "", Text.IsWhitespaceOrNewline);
    assert "" + "'v'" + "" == "'v'";
  }

  /** `getMode`: gvim never reports a blocking mode. */
  function GetMode(s: Session, answer: Answer): (r: Result<(string, bool), GvimError>)
    ensures r.Success? <==> CheckRunning(s).Success? && answer.Output?
    ensures r.Success? ==> r.value == (ParseMode(answer.text), false)
    ensures !s.running ==> r == Failure(NotRunning)
  {
    match CheckRunning(s)
    case Failure(e) => Failure(e)
    case Success(_) =>
      match ExprOutput(answer)
      case Failure(e) => Failure(e)
      case Success(out) => Success((ParseMode(out), false))
  }

  // ----------------------------------------------------------------- lifecycle

  /** A started session stops cleanly: it quits the server it started, and
      stopping again changes nothing; the inputs survive both. */
  lemma StartThenStop(name: string, s: Session)
    requires Valid(s) && !s.running
    ensures var started := Start(s, name, true, true).0;
            var stopped := Stop(started);
            && started.running
            && stopped.sent == s.sent + StartupKeys + [QuitKeys]
            && !stopped.running && stopped.serverName.None?
            && Stop(stopped) == stopped
            && stopped.inputs == s.inputs
  {
  }

  /** Inputs are recorded even when the session is not running, so a
      copy replays them all. */
  lemma InputsRecordedWhileStopped(inputs: seq<string>)
    ensures GetInputs(SendAllInputs(Fresh, inputs)) == inputs
    ensures SendAllInputs(Fresh, inputs).sent == []
  {
    SendAllInputsRecords(Fresh, inputs);
  }

  function SendAllInputs(s: Session, inputs: seq<string>): (r: Session)
    requires Valid(s)
    decreases |inputs|
    ensures Valid(r) && r.running == s.running
  {
    if |inputs| == 0 then s else SendAllInputs(SendInput(s, inputs[0]).0, inputs[1..])
  }

  lemma {:induction false} SendAllInputsRecords(s: Session, inputs: seq<string>)
    requires Valid(s)
    ensures SendAllInputs(s, inputs).inputs == s.inputs + inputs
    ensures !s.running ==> SendAllInputs(s, inputs).sent == s.sent
    ensures s.running ==> SendAllInputs(s, inputs).sent == s.sent + inputs
    decreases |inputs|
  {
    if |inputs| > 0 {
      var s' := SendInput(s, inputs[0]).0;
      SendAllInputsRecords(s', inputs[1..]);
      assert s.inputs + [inputs[0]] + inputs[1..] == s.inputs + inputs;
      assert s.sent + [inputs[0]] + inputs[1..] == s.sent + inputs;
    } else {
      assert s.inputs + inputs == s.inputs && s.sent + inputs == s.sent;
    }
  }
}
