/** `SessionManager` (Sources/Interface/Vim/Sessions/SessionManager.swift):
    the registry of running sessions, keyed by session id. The actor is
    treated as a sequential object. Sessions are abstract: a `Handle`
    records its kind, the setup calls made on it and the inputs handed to
    `sendInput`, which is what `getInputs` returns. What each session call
    answers comes in as a parameter, and so does the id of a new session
    (a fresh UUID in the source). */
module SessionManager {
  import opened Wrappers
  import opened SessionProtocol
  import VimState

  /** The session class `createSessionInstance` picks. */
  datatype SessionClass = GvimSessionClass | NvimSessionClass

  /** `createSessionInstance`. */
  function CreateSessionInstance(t: SessionType): (c: SessionClass) {
    match t
    case Vim => GvimSessionClass
    case Nvim => NvimSessionClass
  }

  /** `.vim` makes a GVim session and `.nvim` a Neovim one, so each kind
      has its own class. */
  lemma SessionClasses(t: SessionType, u: SessionType)
    ensures CreateSessionInstance(t) == GvimSessionClass <==> t == Vim
    ensures CreateSessionInstance(t) == NvimSessionClass <==> t == Nvim
    ensures CreateSessionInstance(t) == CreateSessionInstance(u) <==> t == u
  {
  }

  /** A call made on a session while it is being set up. */
  datatype Setup = SetBufferLines(buffer: int, start: int, end: int, lines: seq<string>)
                 | SetCursorPosition(window: int, row: int, col: int)

  datatype Handle = Handle(kind: SessionType, setup: seq<Setup>, inputs: seq<string>)

  datatype Manager = Manager(sessions: map<string, Handle>)

  const Empty: Manager := Manager(map[])

  /** `SessionManagerError`; `noViableSessionType` and
      `sessionCreationFailed` are declared but never thrown, and a
      session's own error passes through. */
  datatype ManagerError<E> = SessionNotFound(id: string) | SessionFailed(cause: E)

  /** A just started session. */
  function Started(t: SessionType): Handle {
    Handle(t, [], [])
  }

  /** `getSession`. Its one failure is `sessionNotFound`, which carries no
      session error, hence the unit cause. */
  function GetSession(m: Manager, id: string): (r: Result<Handle, ManagerError<()>>)
    ensures r.Success? <==> id in m.sessions
    ensures r.Success? ==> r.value == m.sessions[id]
    ensures r.Failure? ==> r.error == SessionNotFound(id)
  {
    if id in m.sessions then Success(m.sessions[id]) else Failure(SessionNotFound(id))
  }

  /** `activeSessionCount`. */
  function ActiveSessionCount(m: Manager): (n: nat)
    ensures n == 0 <==> m.sessions == map[]
  {
    |m.sessions|
  }

  /** `createAndStartSession(type:)`: the session is registered under its
      id only once `start` has succeeded. */
  function CreateAndStartSession<E>(m: Manager, t: SessionType, id: string, start: Result<(), E>):
    (r: (Manager, Result<Handle, ManagerError<E>>))
    ensures start.Failure? ==> r == (m, Failure(SessionFailed(start.error)))
    ensures start.Success? ==> r == (Manager(m.sessions[id := Started(t)]), Success(Started(t)))
  {
    match start
    case Failure(e) => (m, Failure(SessionFailed(e)))
    case Success(_) => (Manager(m.sessions[id := Started(t)]), Success(Started(t)))
  }

  /** `createAndStartSession(type:defaultState:)`: after `start`, a default
      state replaces the whole of buffer 1 and then sets the cursor of
      window 0; the session is registered only if all of that succeeded. */
  function CreateWithDefault<E>(m: Manager, t: SessionType, id: string, default: Option<VimState.State>,
                                start: Result<(), E>, setBuffer: Result<(), E>, setCursor: Result<(), E>):
    (r: (Manager, Result<Handle, ManagerError<E>>))
    ensures r.1.Success? <==>
              start.Success? && (default.Some? ==> setBuffer.Success? && setCursor.Success?)
    ensures r.1.Failure? ==> r.0 == m && r.1.error.SessionFailed?
    ensures r.1.Success? ==> r.0 == Manager(m.sessions[id := r.1.value]) && r.1.value.kind == t
    ensures r.1.Success? && default.None? ==> r.1.value == Started(t)
    ensures r.1.Success? && default.Some? ==>
              r.1.value.setup == [SetBufferLines(1, 0, -1, default.value.buffer),
                                  SetCursorPosition(0, default.value.cursor.row, default.value.cursor.col)]
  {
    match start
    case Failure(e) => (m, Failure(SessionFailed(e)))
    case Success(_) =>
      match default
      case None => (Manager(m.sessions[id := Started(t)]), Success(Started(t)))
      case Some(state) =>
        match setBuffer
        case Failure(e) => (m, Failure(SessionFailed(e)))
        case Success(_) =>
          match setCursor
          case Failure(e) => (m, Failure(SessionFailed(e)))
          case Success(_) =>
            var h := Handle(t, [SetBufferLines(1, 0, -1, state.buffer),
                                SetCursorPosition(0, state.cursor.row, state.cursor.col)], []);
            (Manager(m.sessions[id := h]), Success(h))
  }

  /** Hands `inputs[i..]` to `sendInput` one at a time, stopping at the
      first failure; `send(k)` is the outcome of the k-th. A session
      records an input before sending it, so a failed input is recorded
      too. */
  function Replay<E>(h: Handle, inputs: seq<string>, send: nat -> Result<(), E>, i: nat): (r: (Handle, Result<(), E>))
    requires i <= |inputs|
    ensures r.0.kind == h.kind && r.0.setup == h.setup
    ensures h.inputs <= r.0.inputs <= h.inputs + inputs[i..]
    ensures r.1.Success? <==> forall k :: i <= k < |inputs| ==> send(k).Success?
    ensures r.1.Success? ==> r.0.inputs == h.inputs + inputs[i..]
    decreases |inputs| - i
  {
    if i == |inputs| then (h, Success(()))
    else
      var h' := h.(inputs := h.inputs + [inputs[i]]);
      match send(i)
      case Failure(e) => (h', Failure(e))
      case Success(_) =>
        assert h'.inputs + inputs[i + 1..] == h.inputs + inputs[i..];
        Replay(h', inputs, send, i + 1)
  }

  /** `copySession(inputs:type:)`: a new session of the kind, registered
      when it starts, then fed the inputs in order. Sessions are shared
      references in the source, so a session whose replay failed is left
      registered with the inputs it got. */
  function CopyFromInputs<E>(m: Manager, inputs: seq<string>, t: SessionType, newId: string,
                             start: Result<(), E>, send: nat -> Result<(), E>):
    (r: (Manager, Result<Handle, ManagerError<E>>))
    ensures start.Failure? ==> r == (m, Failure(SessionFailed(start.error)))
    ensures start.Success? ==>
              newId in r.0.sessions && r.0.sessions == m.sessions[newId := r.0.sessions[newId]]
              && r.0.sessions[newId].kind == t && r.0.sessions[newId].inputs <= inputs
    ensures r.1.Success? <==> start.Success? && forall k :: 0 <= k < |inputs| ==> send(k).Success?
    ensures r.1.Success? ==> r.1.value == r.0.sessions[newId] == Handle(t, [], inputs)
  {
    match CreateAndStartSession(m, t, newId, start)
    case (m', Failure(e)) => (m', Failure(e))
    case (m', Success(h)) =>
      var (fed, sent) := Replay(h, inputs, send, 0);
      assert h.inputs + inputs[0..] == inputs;
      var registry := Manager(m.sessions[newId := fed]);
      match sent
      case Failure(e) => (registry, Failure(SessionFailed(e)))
      case Success(_) => (registry, Success(fed))
  }

  /** `copySession(id:)`: the recorded inputs of a registered session,
      replayed into a new session of the same kind. */
  function CopySession<E>(m: Manager, id: string, newId: string, start: Result<(), E>, send: nat -> Result<(), E>):
    (r: (Manager, Result<Handle, ManagerError<E>>))
    ensures id !in m.sessions ==> r == (m, Failure(SessionNotFound(id)))
    ensures id in m.sessions ==> r == CopyFromInputs(m, m.sessions[id].inputs, m.sessions[id].kind, newId, start, send)
  {
    match GetSession(m, id)
    case Failure(_) => (m, Failure(SessionNotFound(id)))
    case Success(h) => CopyFromInputs(m, h.inputs, h.kind, newId, start, send)
  }

  /** A successful copy is a fresh session of the original's kind that has
      been given exactly the original's inputs in the same order; every
      other registered session is untouched. */
  lemma CopyReplaysInputs<E>(m: Manager, id: string, newId: string, start: Result<(), E>, send: nat -> Result<(), E>)
    requires CopySession(m, id, newId, start, send).1.Success?
    ensures var (m', r) := CopySession(m, id, newId, start, send);
            && id in m.sessions
            && r.value.kind == m.sessions[id].kind
            && r.value.inputs == m.sessions[id].inputs
            && r.value.setup == []
            && GetSession(m', newId) == Success(r.value)
            && forall other :: other in m.sessions && other != newId ==> other in m'.sessions && m'.sessions[other] == m.sessions[other]
  {
  }

  /** `stopSession`: stops and forgets that one session; an unknown id
      changes nothing. Returns the ids whose session was stopped; a failing
      `stop` is ignored. */
  function StopSession(m: Manager, id: string): (r: (Manager, seq<string>))
    ensures r.0.sessions.Keys == m.sessions.Keys - {id}
    ensures forall other :: other in r.0.sessions ==> r.0.sessions[other] == m.sessions[other]
    ensures r.1 == (if id in m.sessions then [id] else [])
  {
    if id in m.sessions then (Manager(m.sessions - {id}), [id]) else (m, [])
  }

  /** After `stopSession` the id is unknown, the count drops by one when it
      was registered, and nothing else changes. */
  lemma StopSessionForgets(m: Manager, id: string)
    ensures var m' := StopSession(m, id).0;
            && GetSession(m', id) == Failure(SessionNotFound(id))
            && ActiveSessionCount(m') == ActiveSessionCount(m) - (if id in m.sessions then 1 else 0)
            && (id !in m.sessions ==> m' == m)
  {
    var m' := StopSession(m, id).0;
    if id in m.sessions {
      assert m.sessions.Keys == m'.sessions.Keys + {id};
    }
  }

  /** `stopAllSessions`: stops every registered session, then empties the
      registry. Returns the ids stopped. */
  function StopAllSessions(m: Manager): (r: (Manager, set<string>))
    ensures ActiveSessionCount(r.0) == 0
    ensures r.1 == m.sessions.Keys
  {
    (Empty, m.sessions.Keys)
  }

  /** Registering a started session makes it reachable by its id and adds
      one to the count unless the id was already taken. */
  lemma CreateThenGet<E>(m: Manager, t: SessionType, id: string, start: Result<(), E>)
    requires start.Success?
    ensures var (m', r) := CreateAndStartSession(m, t, id, start);
            && GetSession(m', id) == Success(r.value)
            && ActiveSessionCount(m') == ActiveSessionCount(m) + (if id in m.sessions then 0 else 1)
  {
    var m' := CreateAndStartSession(m, t, id, start).0;
    if id !in m.sessions {
      assert m'.sessions.Keys == m.sessions.Keys + {id};
    } else {
      assert m'.sessions.Keys == m.sessions.Keys;
    }
  }
}
