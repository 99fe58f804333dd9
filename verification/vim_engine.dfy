/** `VimEngine` (Sources/Interface/Vim/VimEngine.swift): types keystrokes
    into a session one at a time and reports the editor state afterwards,
    falling back to the last state it could read when the editor ends in a
    blocking mode (a pending operator, a prompt).

    The session is abstract. `observe(n)` is what it answers to the three
    state queries of the `n`-th state read: read 0 is the one before the
    loop, and read `k + 1` is the one made once `k` keystrokes have been
    typed (the read at the top of the loop for keystroke `k`, or the final
    read for the last). `send(k)` is whether typing keystroke `k` succeeds. The engine builds its states
    with the mode as a string, so they are `EngineState`s here and not
    `VimState.State`s. */
module VimEngine {
  import opened Wrappers
  import opened SessionProtocol

  datatype EngineState = EngineState(buffer: seq<string>, cursorRow: int, cursorCol: int, mode: string)

  /** The state assumed when no non-blocking state was ever read. */
  const EmptyState: EngineState := EngineState([], 0, 0, "n")

  /** `VimEngineError.nvimNotRunning`; every other error is the session's
      own and passes through unchanged. `nvimStartupFailed` and
      `invalidResponse` are declared but never thrown. */
  datatype EngineError<E> = NvimNotRunning | SessionFailed(cause: E)

  /** The buffer and window the engine reads. */
  const EngineBuffer: int := 1
  const EngineWindow: int := 0

  /** `getState`: nothing when the mode blocks, otherwise all of buffer 1,
      the cursor of window 0 and the mode. Returns the queries made. */
  function GetState<E>(rep: Replies<E>): (r: (seq<Query>, Result<Option<EngineState>, E>))
    ensures r.1 == Success(None) <==> rep.mode.Success? && rep.mode.value.1
    ensures r.1.Success? && r.1.value.Some? <==>
              rep.mode.Success? && !rep.mode.value.1 && rep.lines.Success? && rep.cursor.Success?
    ensures r.1.Success? && r.1.value.Some? ==>
              r.1.value.value == EngineState(rep.lines.value, rep.cursor.value.0, rep.cursor.value.1, rep.mode.value.0)
              && r.0 == [ModeQuery, BufferQuery(1, 0, -1), CursorQuery(0)]
  {
    match rep.mode
    case Failure(e) => ([ModeQuery], Failure(e))
    case Success((mode, blocking)) =>
      if blocking then ([ModeQuery], Success(None))
      else
        match rep.lines
        case Failure(e) => ([ModeQuery, BufferQuery(EngineBuffer, 0, -1)], Failure(e))
        case Success(lines) =>
          var queries := [ModeQuery, BufferQuery(EngineBuffer, 0, -1), CursorQuery(EngineWindow)];
          match rep.cursor
          case Failure(e) => (queries, Failure(e))
          case Success((row, col)) => (queries, Success(Some(EngineState(lines, row, col, mode))))
  }

  /** `getState` is the default `getStateBundle` of the engine's buffer and
      window, read back: the same queries in the same order, the same
      errors, no state exactly when the bundle is blocking, and otherwise
      the bundle's contents. */
  lemma GetStateIsBundle<E>(rep: Replies<E>)
    ensures var (queries, r) := GetState(rep);
            var (bundleQueries, b) := GetStateBundle(rep, DefaultBuffer, DefaultWindow);
            && queries == bundleQueries
            && (r.Failure? <==> b.Failure?)
            && (r.Failure? ==> r.error == b.error)
            && (r == Success(None) <==> b.Success? && b.value.blocking)
            && (r.Success? && r.value.Some? ==>
                  b.Success? && r.value.value == EngineState(b.value.buffer, b.value.cursor.0, b.value.cursor.1, b.value.mode))
  {
  }

  /** The state the engine keeps after reading `o`. */
  function Keep(o: Option<EngineState>, last: EngineState): EngineState {
    if o.Some? then o.value else last
  }

  /** The loop of `execKeystrokes` from keystroke `i` on, with `last` the
      last valid state so far: read the state (read `i + 1`), remember it
      when there is one, type the keystroke; at the end read once more and
      fall back to `last`. Returns the keystrokes typed and the outcome. */
  function Run<E>(observe: nat -> Replies<E>, send: nat -> Result<(), E>, keystrokes: seq<string>,
                  i: nat, last: EngineState): (r: (seq<string>, Result<EngineState, EngineError<E>>))
    requires i <= |keystrokes|
    ensures r.0 <= keystrokes[i..]
    ensures r.1.Success? ==> r.0 == keystrokes[i..]
    ensures r.1.Failure? ==> r.1.error.SessionFailed?
    decreases |keystrokes| - i
  {
    match GetState(observe(i + 1)).1
    case Failure(e) => ([], Failure(SessionFailed(e)))
    case Success(o) =>
      if i == |keystrokes| then ([], Success(Keep(o, last)))
      else
        match send(i)
        case Failure(e) => ([], Failure(SessionFailed(e)))
        case Success(_) =>
          var rest := Run(observe, send, keystrokes, i + 1, Keep(o, last));
          ([keystrokes[i]] + rest.0, rest.1)
  }

  /** `execKeystrokes(session:keystrokes:)`. A session that is not running
      is refused before anything is typed; otherwise each keystroke is
      typed once, in order, until the first error. */
  function ExecKeystrokes<E>(running: bool, observe: nat -> Replies<E>, send: nat -> Result<(), E>,
                             keystrokes: seq<string>): (r: (seq<string>, Result<EngineState, EngineError<E>>))
    ensures !running ==> r == ([], Failure(NvimNotRunning))
    ensures r.0 <= keystrokes
    ensures r.1.Success? ==> r.0 == keystrokes
    ensures r.1 == Failure(NvimNotRunning) ==> !running
  {
    if !running then ([], Failure(NvimNotRunning))
    else
      match GetState(observe(0)).1
      case Failure(e) => ([], Failure(SessionFailed(e)))
      case Success(o) =>
        assert keystrokes[0..] == keystrokes;
        Run(observe, send, keystrokes, 0, Keep(o, EmptyState))
  }

  /** Every keystroke typed is one whose sending succeeded, and a failed
      run stopped at the first keystroke whose sending failed or before
      which the state could not be read. */
  lemma {:induction false} RunTypedOnlyDelivered<E>(observe: nat -> Replies<E>, send: nat -> Result<(), E>,
                                                   keystrokes: seq<string>, i: nat, last: EngineState)
    requires i <= |keystrokes|
    ensures var r := Run(observe, send, keystrokes, i, last);
            forall j :: i <= j < i + |r.0| ==> send(j).Success? && GetState(observe(j + 1)).1.Success?
    decreases |keystrokes| - i
  {
    var r := Run(observe, send, keystrokes, i, last);
    var g := GetState(observe(i + 1)).1;
    if g.Success? && i < |keystrokes| && send(i).Success? {
      var rest := Run(observe, send, keystrokes, i + 1, Keep(g.value, last));
      RunTypedOnlyDelivered(observe, send, keystrokes, i + 1, Keep(g.value, last));
      assert r.0 == [keystrokes[i]] + rest.0;
      forall j | i <= j < i + |r.0|
        ensures send(j).Success? && GetState(observe(j + 1)).1.Success?
      {
        if j > i {
          assert i + 1 <= j < i + 1 + |rest.0|;
        }
      }
      assert r == Run(observe, send, keystrokes, i, last);
    } else {
      assert r.0 == [];
    }
  }

  // ------------------------------------------------------- reference result

  /** The state of one read, when it was readable and the mode did not
      block. */
  function StateAt<E>(rep: Replies<E>): Option<EngineState> {
    var r := GetState(rep).1;
    if r.Success? then r.value else None
  }

  /** The latest non-blocking state among reads 0..k. */
  function LastNonBlocking<E>(observe: nat -> Replies<E>, k: nat): Option<EngineState>
    decreases k
  {
    match StateAt(observe(k))
    case Some(st) => Some(st)
    case None => if k == 0 then None else LastNonBlocking(observe, k - 1)
  }

  /** The answer `execKeystrokes` promises: the latest non-blocking state,
      else the empty state. */
  function Expected<E>(observe: nat -> Replies<E>, k: nat): EngineState {
    var o := LastNonBlocking(observe, k);
    if o.Some? then o.value else EmptyState
  }

  /** The loop keeps `last` equal to the expected answer for the states
      read so far. */
  lemma {:induction false} RunReturnsExpected<E>(observe: nat -> Replies<E>, send: nat -> Result<(), E>,
                                                keystrokes: seq<string>, i: nat, last: EngineState)
    requires i <= |keystrokes|
    requires last == Expected(observe, i)
    requires Run(observe, send, keystrokes, i, last).1.Success?
    ensures Run(observe, send, keystrokes, i, last).1.value == Expected(observe, |keystrokes| + 1)
    decreases |keystrokes| - i
  {
    var o := GetState(observe(i + 1)).1.value;
    assert Keep(o, last) == Expected(observe, i + 1);
    if i < |keystrokes| {
      RunReturnsExpected(observe, send, keystrokes, i + 1, Keep(o, last));
    }
  }

  /** A successful run returns the state read after the last keystroke when
      that is not blocking; otherwise the latest non-blocking state read on
      the way; otherwise the empty state at (0, 0) in normal mode. */
  lemma ExecReturnsLastNonBlocking<E>(running: bool, observe: nat -> Replies<E>, send: nat -> Result<(), E>,
                                      keystrokes: seq<string>)
    requires ExecKeystrokes(running, observe, send, keystrokes).1.Success?
    ensures var r := ExecKeystrokes(running, observe, send, keystrokes).1.value;
            && r == Expected(observe, |keystrokes| + 1)
            && (StateAt(observe(|keystrokes| + 1)).Some? ==> r == StateAt(observe(|keystrokes| + 1)).value)
            && ((forall k :: 0 <= k <= |keystrokes| + 1 ==> StateAt(observe(k)).None?) ==> r == EmptyState)
  {
    var o := GetState(observe(0)).1.value;
    assert Keep(o, EmptyState) == Expected(observe, 0);
    RunReturnsExpected(observe, send, keystrokes, 0, Keep(o, EmptyState));
    NoneSeenGivesEmpty(observe, |keystrokes| + 1);
  }

  lemma {:induction false} NoneSeenGivesEmpty<E>(observe: nat -> Replies<E>, k: nat)
    ensures (forall j :: 0 <= j <= k ==> StateAt(observe(j)).None?) ==> LastNonBlocking(observe, k) == None
    decreases k
  {
    if k > 0 && forall j :: 0 <= j <= k ==> StateAt(observe(j)).None? {
      NoneSeenGivesEmpty(observe, k - 1);
    }
  }

  /** With no keystrokes nothing is typed, the state is still read twice,
      and the result is the second read's state, else the first's, else the
      empty state. */
  lemma NoKeystrokes<E>(observe: nat -> Replies<E>, send: nat -> Result<(), E>)
    ensures var (typed, r) := ExecKeystrokes(true, observe, send, []);
            && typed == []
            && (r.Success? <==> GetState(observe(0)).1.Success? && GetState(observe(1)).1.Success?)
            && (r.Success? && StateAt(observe(1)).Some? ==> r == Success(StateAt(observe(1)).value))
            && (r.Success? && StateAt(observe(1)).None? && StateAt(observe(0)).Some? ==> r == Success(StateAt(observe(0)).value))
            && (GetState(observe(0)).1 == Success(None) && GetState(observe(1)).1 == Success(None) ==> r == Success(EmptyState))
  {
  }

  // ------------------------------------------------------ with a new session

  /** `execKeystrokes(_:)`: start a fresh session, run, and stop it on every
      path once it has started. Returns whether `stop` was called. */
  function ExecInFreshSession<E>(start: Result<(), E>, observe: nat -> Replies<E>, send: nat -> Result<(), E>,
                                 keystrokes: seq<string>): (r: (bool, seq<string>, Result<EngineState, EngineError<E>>))
    ensures r.0 <==> start.Success?
    ensures start.Failure? ==> r.1 == [] && r.2 == Failure(SessionFailed(start.error))
    ensures start.Success? ==> (r.1, r.2) == ExecKeystrokes(true, observe, send, keystrokes)
  {
    match start
    case Failure(e) => (false, [], Failure(SessionFailed(e)))
    case Success(_) =>
      var (typed, result) := ExecKeystrokes(true, observe, send, keystrokes);
      (true, typed, result)
  }
}
