/** What the two Vim sessions (Sources/Interface/Vim/Sessions/GvimSession.swift
    and VimSession.swift) rely on from the Vim at the other end of the
    client-server channel: how it reads the string literals the sessions
    write, and what the few buffer-editing commands they send do to the
    buffer. A buffer is its list of lines; Vim never shows a buffer with no
    lines, so deleting every line leaves one empty line. */
module VimRemote {
  import opened Wrappers
  import Text

  /** What a `vim --remote-expr` or `--serverlist` run gives back: a non-zero
      exit, or its standard output, `None` when that is not UTF-8. */
  datatype Answer = ExitFailure | Output(text: Option<string>)

  type Buffer = seq<string>

  /** The buffer Vim shows for a list of lines. */
  function NonEmpty(b: Buffer): (r: Buffer)
    ensures |r| >= 1
    ensures |b| > 0 ==> r == b
    ensures |b| == 0 ==> r == [""]
  {
    if |b| == 0 then [""] else b
  }

  // ---------------------------------------------------------- string literals

  function Prepend(c: char, r: Option<string>): (p: Option<string>)
    ensures p.Some? <==> r.Some?
    ensures p.Some? ==> p.value == [c] + r.value
  {
    match r
    case None => None
    case Some(t) => Some([c] + t)
  }

  /** The text of a Vim single-quoted string whose body (what stands between
      the quotes) is `body`: `''` stands for one quote and nothing else is
      special. A lone quote would end the literal early; such a body is not a
      literal and gives `None`. */
  function ReadSingleQuoted(body: string): Option<string>
    decreases |body|
  {
    if |body| == 0 then Some("")
    else if body[0] == '\'' then
      if |body| >= 2 && body[1] == '\'' then Prepend('\'', ReadSingleQuoted(body[2..])) else None
    else Prepend(body[0], ReadSingleQuoted(body[1..]))
  }

  /** The body of a single-quoted literal for `t`: every quote doubled. */
  function SingleQuoted(t: string): (r: string)
    ensures |r| == |t| + Text.Count(t, '\'')
    ensures '\'' !in t ==> r == t
  {
    Text.ReplaceByPairLength(t, '\'', "''");
    Text.Replace(t, '\'', "''")
  }

  /** Doubling the quotes writes a literal that Vim reads back as the text. */
  lemma {:induction false} ReadSingleQuotedInverse(t: string)
    ensures ReadSingleQuoted(SingleQuoted(t)) == Some(t)
  {
    if |t| > 0 {
      ReadSingleQuotedInverse(t[1..]);
      var body := SingleQuoted(t);
      assert body == (if t[0] == '\'' then "''" else [t[0]]) + SingleQuoted(t[1..]);
      if t[0] == '\'' {
        assert body[2..] == SingleQuoted(t[1..]);
      } else {
        assert body[1..] == SingleQuoted(t[1..]);
      }
      assert [t[0]] + t[1..] == t;
    }
  }

  /** And it is the only body that reads as `t`. */
  lemma {:induction false} ReadSingleQuotedUnique(body: string, t: string)
    requires ReadSingleQuoted(body) == Some(t)
    ensures body == SingleQuoted(t)
    decreases |body|
  {
    if |body| > 0 {
      var k := if body[0] == '\'' then 2 else 1;
      var rest := ReadSingleQuoted(body[k..]).value;
      assert t == [body[0]] + rest && t[1..] == rest;
      ReadSingleQuotedUnique(body[k..], rest);
      assert body == body[..k] + body[k..];
      if k == 2 {
        assert body[..k] == "''";
      } else {
        assert body[..k] == [t[0]];
      }
    }
  }

  /** Reading every literal of a list. */
  function ReadAll(bodies: seq<string>): (r: Option<seq<string>>)
    ensures r.Some? ==> |r.value| == |bodies|
  {
    if |bodies| == 0 then Some([])
    else
      match (ReadSingleQuoted(bodies[0]), ReadAll(bodies[1..]))
      case (Some(t), Some(ts)) => Some([t] + ts)
      case _ => None
  }

  /** Quoting every line of a list. */
  function QuoteAll(lines: seq<string>): (r: seq<string>)
    ensures |r| == |lines|
    ensures forall i :: 0 <= i < |lines| ==> r[i] == SingleQuoted(lines[i])
  {
    if |lines| == 0 then [] else [SingleQuoted(lines[0])] + QuoteAll(lines[1..])
  }

  lemma {:induction false} ReadAllQuoteAll(lines: seq<string>)
    ensures ReadAll(QuoteAll(lines)) == Some(lines)
  {
    if |lines| > 0 {
      ReadSingleQuotedInverse(lines[0]);
      ReadAllQuoteAll(lines[1..]);
      assert QuoteAll(lines)[1..] == QuoteAll(lines[1..]);
      assert [lines[0]] + lines[1..] == lines;
    }
  }

  /** The text of a Vim double-quoted string body, for the two escapes the
      sessions write, `\\` and `\"`. Any other backslash escape, and a bare
      quote, are outside this model and give `None`. */
  function ReadDoubleQuoted(body: string): Option<string>
    decreases |body|
  {
    if |body| == 0 then Some("")
    else if body[0] == '"' then None
    else if body[0] == '\\' then
      if |body| >= 2 && (body[1] == '\\' || body[1] == '"') then Prepend(body[1], ReadDoubleQuoted(body[2..]))
      else None
    else Prepend(body[0], ReadDoubleQuoted(body[1..]))
  }

  /** Backslashes doubled first, then quotes escaped. */
  function DoubleQuoted(t: string): (r: string)
    ensures |r| >= |t| + Text.Count(t, '\\')
    ensures '\\' !in t && '"' !in t ==> r == t
  {
    var escaped := Text.Replace(t, '\\', "\\\\");
    Text.ReplaceByPairLength(t, '\\', "\\\\");
    Text.ReplaceByPairLength(escaped, '"', "\\\"");
    Text.Replace(escaped, '"', "\\\"")
  }

  function EscapeChar(c: char): string {
    if c == '\\' then "\\\\" else if c == '"' then "\\\"" else [c]
  }

  lemma DoubleQuotedCons(t: string)
    requires |t| > 0
    ensures DoubleQuoted(t) == EscapeChar(t[0]) + DoubleQuoted(t[1..])
  {
    var h := if t[0] == '\\' then "\\\\" else [t[0]];
    assert Text.Replace(t, '\\', "\\\\") == h + Text.Replace(t[1..], '\\', "\\\\");
    Text.ReplaceAppend(h, Text.Replace(t[1..], '\\', "\\\\"), '"', "\\\"");
    if t[0] != '\\' {
      assert h[1..] == [];
    }
  }

  /** The escaping `sendInput` applies writes a body Vim reads back as the
      input. */
  lemma {:induction false} ReadDoubleQuotedInverse(t: string)
    ensures ReadDoubleQuoted(DoubleQuoted(t)) == Some(t)
  {
    if |t| > 0 {
      DoubleQuotedCons(t);
      ReadDoubleQuotedInverse(t[1..]);
      var body := DoubleQuoted(t);
      var k := |EscapeChar(t[0])|;
      assert body[k..] == DoubleQuoted(t[1..]);
      assert [t[0]] + t[1..] == t;
    }
  }

  // ------------------------------------------------------------------- edits

  /** A line argument: a number, or the last line, written `$` in an Ex
      range and `'$'` or `line('$')` in an expression. `BareDollar` is a `$`
      written where an expression is expected, which Vim cannot evaluate. */
  datatype LineArg = Num(n: int) | LastLine | BareDollar

  function Resolve(b: Buffer, arg: LineArg): (r: Option<int>)
    ensures r.None? <==> arg.BareDollar?
  {
    match arg
    case Num(n) => Some(n)
    case LastLine => Some(|b|)
    case BareDollar => None
  }

  /** The buffer commands the sessions send. Texts are carried as the bodies
      of the single-quoted literals written in the command. */
  datatype Edit =
    | ExDelete(first: int, last: LineArg)                       // `:first,lastd`
    | SetLine(line: int, body: string)                          // `setline(line, '…')`
    | Append(after: LineArg, body: string)                      // `append(after, '…')`
    | DeleteBufLine(buf: int, from: int, to: LineArg)           // `deletebufline(buf, from, to)`
    | AppendBufLine(buf: int, lnum: int, bodies: seq<string>)   // `appendbufline(buf, lnum, ['…', …])`

  /** The text of the Ex command, without the leading `:` and the `<CR>`. */
  function CommandText(e: Edit): string {
    match e
    case ExDelete(first, last) =>
      Text.IntToString(first) + "," + (if last.Num? then Text.IntToString(last.n) else "$") + "d"
    case SetLine(n, body) =>
      "call setline(" + Text.IntToString(n) + ", '" + body + "')"
    case Append(after, body) =>
      "call append(" + (if after.Num? then Text.IntToString(after.n) else "line('$')") + ", '" + body + "')"
    case DeleteBufLine(buf, from, to) =>
      "call deletebufline(" + Text.IntToString(buf) + ", " + Text.IntToString(from) + ", "
      + (match to case Num(n) => Text.IntToString(n) case LastLine => "'$'" case BareDollar => "$") + ")"
    case AppendBufLine(buf, lnum, bodies) =>
      "call appendbufline(" + Text.IntToString(buf) + ", " + Text.IntToString(lnum) + ", ["
      + Text.Join(Literals(bodies), ", ") + "])"
  }

  /** Each body between single quotes. */
  function Literals(bodies: seq<string>): (r: seq<string>)
    ensures |r| == |bodies|
    ensures forall i :: 0 <= i < |r| ==> r[i] == "'" + bodies[i] + "'"
  {
    if |bodies| == 0 then [] else ["'" + bodies[0] + "'"] + Literals(bodies[1..])
  }

  /** The commands as the sessions write them. */
  lemma ExDeleteTexts()
    ensures CommandText(ExDelete(1, LastLine)) == "1,$d"
    ensures CommandText(ExDelete(2, Num(3))) == "2,3d"
  {
    assert Text.IntToString(1) == "1" && Text.IntToString(2) == "2" && Text.IntToString(3) == "3";
  }

  lemma SetLineText()
    ensures CommandText(SetLine(1, "x")) == "call setline(1, 'x')"
  {
    assert Text.IntToString(1) == "1";
  }

  /** A quote in the text is doubled inside the literal. */
  lemma QuoteDoubled()
    ensures SingleQuoted("it's") == "it''s"
  {
  }

  lemma AppendText()
    ensures CommandText(Append(LastLine, "x")) == "call append(line('$'), 'x')"
  {
  }

  lemma DeleteBufLineTexts()
    ensures CommandText(DeleteBufLine(1, 1, LastLine)) == "call deletebufline(1, 1, '$')"
    ensures CommandText(DeleteBufLine(1, 1, BareDollar)) == "call deletebufline(1, 1, $)"
  {
    assert Text.IntToString(1) == "1";
  }

  lemma AppendBufLineText()
    ensures CommandText(AppendBufLine(1, 0, ["a", "b"])) == "call appendbufline(1, 0, ['a', 'b'])"
  {
    assert Text.IntToString(1) == "1" && Text.IntToString(0) == "0";
    var ls := Literals(["a", "b"]);
    assert ls[0] == "'a'" && ls[1] == "'b'";
    assert ls == ["'a'", "'b'"];
    var joined := Text.Join(ls, ", ");
    assert joined == "'a'" + ", " + "'b'" by {
      assert ls[1..] == ["'b'"];
    }
    assert CommandText(AppendBufLine(1, 0, ["a", "b"]))
        == "call appendbufline(" + "1" + ", " + "0" + ", [" + joined + "])";
  }

  /** One command: the new buffer, or `None` when Vim rejects the command
      (it reports an error and the buffer stays as it was).
      `deletebufline` fails quietly, returning 1, for a first line outside
      the buffer or a last line before it, and takes a last line past the
      end as the end. */
  function ApplyEdit(b: Buffer, e: Edit): Option<Buffer> {
    match e
    case ExDelete(first, last) =>
      // in an Ex range a bare `$` is the last line
      var l := if last.Num? then last.n else |b|;
      if 1 <= first <= l <= |b| then Some(NonEmpty(b[..first - 1] + b[l..])) else None
    case SetLine(n, body) =>
      (match ReadSingleQuoted(body)
       case None => None
       case Some(t) =>
         if 1 <= n <= |b| then Some(b[n - 1 := t])
         else if n == |b| + 1 then Some(b + [t])
         else None)
    case Append(after, body) =>
      (match (Resolve(b, after), ReadSingleQuoted(body))
       case (Some(a), Some(t)) => if 0 <= a <= |b| then Some(b[..a] + [t] + b[a..]) else None
       case _ => None)
    case DeleteBufLine(_, first, last) =>
      (match Resolve(b, last)
       case None => None
       case Some(l) =>
         if first < 1 || first > |b| || l < first then Some(b)
         else Some(NonEmpty(b[..first - 1] + b[(if l <= |b| then l else |b|)..])))
    case AppendBufLine(_, after, bodies) =>
      (match ReadAll(bodies)
       case None => None
       case Some(ts) => if 0 <= after <= |b| then Some(b[..after] + ts + b[after..]) else None)
  }

  /** The buffer after a run of commands, and how many of them Vim rejected;
      a rejected command leaves the buffer as it was and the next one still
      runs. */
  datatype Outcome = Outcome(buffer: Buffer, rejected: nat)

  function Run(b: Buffer, es: seq<Edit>): Outcome
    decreases |es|
  {
    if |es| == 0 then Outcome(b, 0)
    else
      match ApplyEdit(b, es[0])
      case Some(b') => Run(b', es[1..])
      case None =>
        var o := Run(b, es[1..]);
        Outcome(o.buffer, o.rejected + 1)
  }

  /** Running two command lists in turn. */
  lemma {:induction false} RunConcat(b: Buffer, es: seq<Edit>, fs: seq<Edit>)
    ensures Run(b, es + fs).buffer == Run(Run(b, es).buffer, fs).buffer
    ensures Run(b, es + fs).rejected == Run(b, es).rejected + Run(Run(b, es).buffer, fs).rejected
    decreases |es|
  {
    if |es| == 0 {
      assert es + fs == fs;
    } else {
      assert (es + fs)[0] == es[0] && (es + fs)[1..] == es[1..] + fs;
      match ApplyEdit(b, es[0])
      case Some(b') => RunConcat(b', es[1..], fs);
      case None => RunConcat(b, es[1..], fs);
    }
  }

  /** One step of a run that Vim accepts. */
  lemma RunStep(b: Buffer, e: Edit, es: seq<Edit>, b': Buffer)
    requires ApplyEdit(b, e) == Some(b')
    ensures Run(b, [e] + es) == Run(b', es)
  {
    assert ([e] + es)[0] == e && ([e] + es)[1..] == es;
  }

  /** `append(n, '…')` of a quoted line inserts it after line `n`. */
  lemma AppendQuoted(b: Buffer, after: LineArg, t: string)
    requires after.Num? ==> 0 <= after.n <= |b|
    requires !after.BareDollar?
    ensures var a := if after.Num? then after.n else |b|;
            ApplyEdit(b, Append(after, SingleQuoted(t))) == Some(b[..a] + [t] + b[a..])
  {
    ReadSingleQuotedInverse(t);
  }

  /** `setline(n, '…')` of a quoted line replaces line `n`. */
  lemma SetLineQuoted(b: Buffer, n: int, t: string)
    requires 1 <= n <= |b|
    ensures ApplyEdit(b, SetLine(n, SingleQuoted(t))) == Some(b[n - 1 := t])
  {
    ReadSingleQuotedInverse(t);
  }

  /** `:first,lastd` within the buffer. */
  lemma ExDeleteRange(b: Buffer, first: int, last: int, kept: Buffer)
    requires 1 <= first <= last <= |b| && kept == b[..first - 1] + b[last..]
    ensures ApplyEdit(b, ExDelete(first, Num(last))) == Some(NonEmpty(kept))
  {
  }

  /** `appendbufline(buf, n, [...])` of quoted lines inserts them after line `n`. */
  lemma AppendBufLineQuoted(b: Buffer, buf: int, lnum: int, lines: seq<string>)
    requires 0 <= lnum <= |b|
    ensures ApplyEdit(b, AppendBufLine(buf, lnum, QuoteAll(lines))) == Some(b[..lnum] + lines + b[lnum..])
  {
    ReadAllQuoteAll(lines);
  }

  /** `deletebufline(buf, first, last)` within the buffer. */
  lemma DeleteBufLineRange(b: Buffer, buf: int, first: int, last: int, kept: Buffer)
    requires 1 <= first <= last <= |b| && kept == b[..first - 1] + b[last..]
    ensures ApplyEdit(b, DeleteBufLine(buf, first, Num(last))) == Some(NonEmpty(kept))
  {
  }

  /** `deletebufline(buf, first, '$')` from a line of the buffer. */
  lemma DeleteBufLineToEnd(b: Buffer, buf: int, first: int)
    requires 1 <= first <= |b|
    ensures ApplyEdit(b, DeleteBufLine(buf, first, LastLine)) == Some(NonEmpty(b[..first - 1]))
  {
    assert b[..first - 1] + b[|b|..] == b[..first - 1];
  }

  /** What `getbufline(buf, first, last)` returns: the lines `first` to
      `last`, 1-based and inclusive, with a last line past the end taken as
      the end; an empty list for a first line outside the buffer or a last
      line before it. */
  function GetBufLine(b: Buffer, first: int, last: LineArg): (r: Option<seq<string>>)
    ensures r.None? <==> last.BareDollar?
  {
    match Resolve(b, last)
    case None => None
    case Some(l) =>
      var l' := if l <= |b| then l else |b|;
      if first < 1 || first > l' then Some([]) else Some(b[first - 1..l'])
  }

  /** Read with the 1-based first line `start + 1` and the last line `end`,
      `getbufline` returns exactly the 0-based lines `start` up to but not
      including `end`, the indexing `Replacement` uses. */
  lemma GetBufLineRange(b: Buffer, start: int, end: int)
    requires 0 <= start <= (if end == -1 then |b| else end) <= |b|
    ensures GetBufLine(b, start + 1, if end == -1 then LastLine else Num(end))
            == Some(b[start..if end == -1 then |b| else end])
  {
    var e := if end == -1 then |b| else end;
    if start == e {
      assert b[start..e] == [];
    }
  }

  /** How Vim prints a list as the answer to an expression: one item per
      line. */
  function PrintList(items: seq<string>): string {
    if |items| == 0 then "" else Text.Join(items, "\n") + "\n"
  }

  /** Where the old lines sit once `lines` went in before line `start`. */
  lemma SpliceSlices(b: Buffer, start: int, end: int, lines: seq<string>)
    requires 0 <= start <= end <= |b|
    ensures var mid := b[..start] + lines + b[start..];
            |mid| == |b| + |lines| && mid[..start + |lines|] == b[..start] + lines && mid[end + |lines|..] == b[end..]
  {
    var mid := b[..start] + lines + b[start..];
    assert mid[start + |lines|..] == b[start..];
    assert mid[end + |lines|..] == mid[start + |lines|..][end - start..];
  }

  // ------------------------------------------------------- the intended edit

  /** What `setBufferLines(start, end, lines)` is meant to do, as Neovim's
      `nvim_buf_set_lines` defines it with strict indexing: the lines from
      `start` up to but not including `end` (the line count when `end` is -1)
      are replaced by `lines`; indices out of range are an error. */
  function Replacement(b: Buffer, start: int, end: int, lines: seq<string>): (r: Option<Buffer>)
    ensures r.Some? <==> 0 <= start <= (if end == -1 then |b| else end) <= |b|
    ensures r.Some? ==>
              var e := if end == -1 then |b| else end;
              && |r.value| >= 1
              && (|b| - (e - start) + |lines| > 0 ==>
                    && |r.value| == |b| - (e - start) + |lines|
                    && r.value[..start] == b[..start]
                    && r.value[start..start + |lines|] == lines
                    && r.value[start + |lines|..] == b[e..])
  {
    var e := if end == -1 then |b| else end;
    if 0 <= start <= e <= |b| then
      var r := b[..start] + lines + b[e..];
      assert r[..start] == b[..start] && r[start..start + |lines|] == lines && r[start + |lines|..] == b[e..];
      Some(NonEmpty(r))
    else None
  }

  /** Replacing an empty range by nothing changes nothing, and replacing the
      whole buffer leaves exactly the new lines (one empty line for none). */
  lemma ReplacementExtremes(b: Buffer, start: int, lines: seq<string>)
    requires |b| >= 1 && 0 <= start <= |b|
    ensures Replacement(b, start, start, []) == Some(b)
    ensures Replacement(b, 0, -1, lines) == Some(NonEmpty(lines))
    ensures Replacement(b, 0, |b|, lines) == Some(NonEmpty(lines))
  {
    assert b[..start] + [] + b[start..] == b;
    assert b[..0] + lines + b[|b|..] == lines;
  }
}
