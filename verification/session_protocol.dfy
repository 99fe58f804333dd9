/** What every session offers (Sources/Interface/Vim/Sessions/SessionProtocol.swift):
    the session kinds, and the default `getStateBundle`, which asks the mode
    first and the buffer and cursor only when the editor is not blocked.
    A session is abstract here: what it answers to the three queries comes
    in as `Replies`, and the queries made are returned in order. */
module SessionProtocol {
  import opened Wrappers

  /** `SessionType`. */
  datatype SessionType = Nvim | Vim

  /** `CaseIterable.allCases`, in declaration order. */
  const AllTypes: seq<SessionType> := [Nvim, Vim]

  /** `rawValue`. */
  function RawValue(t: SessionType): string {
    match t
    case Nvim => "nvim"
    case Vim => "vim"
  }

  /** `init(rawValue:)`. */
  function FromRawValue(s: string): (r: Option<SessionType>)
    ensures r.Some? ==> RawValue(r.value) == s
  {
    if s == "nvim" then Some(Nvim) else if s == "vim" then Some(Vim) else None
  }

  /** Raw values name the kinds one to one. */
  lemma RawValueRoundTrip(t: SessionType, s: string)
    ensures FromRawValue(RawValue(t)) == Some(t)
    ensures FromRawValue(s) == Some(t) <==> s == RawValue(t)
  {
  }

  /** `displayName`. */
  function DisplayName(t: SessionType): string {
    match t
    case Vim => "Vim"
    case Nvim => "Neovim"
  }

  /** The kinds are listed once each, and raw values and display names tell
      them apart. */
  lemma TypeNames()
    ensures |AllTypes| == 2 && Nvim in AllTypes && Vim in AllTypes
    ensures RawValue(Nvim) != RawValue(Vim) && DisplayName(Nvim) != DisplayName(Vim)
    ensures DisplayName(Nvim) == "Neovim" && DisplayName(Vim) == "Vim"
  {
  }

  // ----------------------------------------------------------- the queries

  /** The three queries, with their arguments. */
  datatype Query = ModeQuery | BufferQuery(buffer: int, start: int, end: int) | CursorQuery(window: int)

  /** What the session answers to `getMode`, `getBufferLines` and
      `getCursorPosition` at one moment; each may throw `E`. */
  datatype Replies<E> = Replies(
    mode: Result<(string, bool), E>,
    lines: Result<seq<string>, E>,
    cursor: Result<(int, int), E>)

  datatype Bundle = Bundle(mode: string, blocking: bool, buffer: seq<string>, cursor: (int, int))

  /** The defaults of `getStateBundle(buffer:window:)`. */
  const DefaultBuffer: int := 1
  const DefaultWindow: int := 0

  /** `getStateBundle`: the mode first; a blocking mode returns at once with
      no buffer and cursor (0, 0); otherwise the whole buffer, then the
      cursor of the window. The first error stops the rest. */
  function GetStateBundle<E>(rep: Replies<E>, buffer: int, window: int): (r: (seq<Query>, Result<Bundle, E>))
    ensures |r.0| >= 1 && r.0[0] == ModeQuery
    ensures rep.mode.Failure? ==> r == ([ModeQuery], Failure(rep.mode.error))
    ensures rep.mode.Success? && rep.mode.value.1 ==>
              r == ([ModeQuery], Success(Bundle(rep.mode.value.0, true, [], (0, 0))))
    ensures rep.mode.Success? && !rep.mode.value.1 ==>
              |r.0| >= 2 && r.0[..2] == [ModeQuery, BufferQuery(buffer, 0, -1)]
              && (r.1.Success? <==> rep.lines.Success? && rep.cursor.Success?)
    ensures r.1.Success? && !r.1.value.blocking ==>
              r == ([ModeQuery, BufferQuery(buffer, 0, -1), CursorQuery(window)],
                    Success(Bundle(rep.mode.value.0, false, rep.lines.value, rep.cursor.value)))
  {
    match rep.mode
    case Failure(e) => ([ModeQuery], Failure(e))
    case Success((mode, blocking)) =>
      if blocking then ([ModeQuery], Success(Bundle(mode, true, [], (0, 0))))
      else
        match rep.lines
        case Failure(e) => ([ModeQuery, BufferQuery(buffer, 0, -1)], Failure(e))
        case Success(lines) =>
          var queries := [ModeQuery, BufferQuery(buffer, 0, -1), CursorQuery(window)];
          match rep.cursor
          case Failure(e) => (queries, Failure(e))
          case Success(cursor) => (queries, Success(Bundle(mode, false, lines, cursor)))
  }

  /** A bundle reports blocking exactly when the mode does, and then neither
      the buffer nor the cursor is asked for, so their errors cannot
      surface. */
  lemma BundleBlocking<E>(rep: Replies<E>, buffer: int, window: int)
    requires rep.mode.Success?
    ensures var r := GetStateBundle(rep, buffer, window);
            && (r.1.Success? ==> (r.1.value.blocking <==> rep.mode.value.1))
            && (rep.mode.value.1 ==> r.1.Success? && forall q :: q in r.0 ==> q == ModeQuery)
  {
  }
}
