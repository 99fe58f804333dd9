/** `NvimSession` (Sources/Interface/Vim/Sessions/NvimSession.swift) apart from
    its process and pipe plumbing: the message counter, `callRPC`, and the
    editor operations built on it. The pipes are a single `running` flag (they
    are set and cleared together) and the bytes Neovim answers with are an
    argument of each call. */
module NvimSession {
  import opened Wrappers
  import opened Bytes
  import opened MsgPack
  import NvimRpc
  import NvimResponses
  import NvimRpcProperties

  /** The session's own state: are the pipes there, and the last message id
      handed out (`messageId`, a `UInt32` that starts at 0). */
  datatype Session = Session(running: bool, messageId: nat)

  const Fresh: Session := Session(false, 0)

  /** `start`: `launched` says whether `process.run()` succeeded. The message
      counter is not reset. */
  function Start(s: Session, launched: bool): (r: (Session, Result<(), RpcError>))
    ensures launched ==> r.0 == s.(running := true) && r.1.Success?
    ensures !launched ==> r.0 == s && r.1 == Failure(StartupFailed)
  {
    if launched then (s.(running := true), Success(())) else (s, Failure(StartupFailed))
  }

  /** `stop`: closes and forgets the pipes; harmless when not running. */
  function Stop(s: Session): (r: Session)
    ensures !r.running && r.messageId == s.messageId
  {
    s.(running := false)
  }

  /** `nextMessageId`: `messageId += 1`, which traps once `messageId` has
      reached `UInt32.max`. */
  function NextMessageId(s: Session): (r: (Session, nat))
    requires s.messageId + 1 < U32_LIMIT
    ensures r.1 == s.messageId + 1 && r.0 == s.(messageId := r.1)
  {
    var id := s.messageId + 1;
    (s.(messageId := id), id)
  }

  /** What one `callRPC` did: the state afterwards, the request it built,
      the bytes written to Neovim's input (if it got that far) and the decoded
      reply or error. */
  datatype Call = Call(session: Session, request: Value, sent: Option<Bytes>, reply: Result<seq<Value>, RpcError>)

  /** `callRPC` up to (not including) the parser: the id is taken before the
      pipes are checked, so a call on a stopped session still uses one up; the
      request is encoded and written; then one read of Neovim's output,
      `answer`, is decoded. The reply's type and msgid are not compared with
      the request's. */
  function CallRpc(s: Session, name: Bytes, params: seq<Value>, answer: Bytes): (c: Call)
    requires s.messageId + 1 < U32_LIMIT
    requires ValidUtf8(name) && forall k :: 0 <= k < |params| ==> Representable(params[k])
    ensures c.session == s.(messageId := s.messageId + 1)
    ensures c.request == NvimRpc.CreateRequest(s.messageId + 1, name, params)
    ensures !s.running ==> c.sent == None && c.reply == Failure(NotRunning)
    ensures s.running && c.sent.None? ==> c.reply.Failure? && c.reply.error.CommunicationFailed?
    ensures c.sent.Some? <==> s.running && Encodable(c.request)
    ensures c.sent.Some? && |answer| == 0 ==> c.reply == Failure(CommunicationFailed(NoDataReceived))
    ensures c.sent.Some? && |answer| > 0 ==> c.reply == NvimRpc.Decode(answer)
  {
    var (s', id) := NextMessageId(s);
    var request := NvimRpc.CreateRequest(id, name, params);
    if !s.running then Call(s', request, None, Failure(NotRunning))
    else
      match NvimRpc.Encode(request)
      case Failure(e) => Call(s', request, None, Failure(e))
      case Success(bytes) =>
        if |answer| == 0 then Call(s', request, Some(bytes), Failure(CommunicationFailed(NoDataReceived)))
        else Call(s', request, Some(bytes), NvimRpc.Decode(answer))
  }

  /** A call's outcome once a parser has been applied to the reply. */
  datatype Outcome<T> = Outcome(session: Session, request: Value, sent: Option<Bytes>, result: Result<T, RpcError>)

  function Parsed<T>(c: Call, parser: seq<Value> -> Result<T, RpcError>): (o: Outcome<T>)
    ensures o.session == c.session && o.request == c.request && o.sent == c.sent
    ensures c.reply.Failure? ==> o.result == Failure(c.reply.error)
    ensures c.reply.Success? ==> o.result == parser(c.reply.value)
  {
    match c.reply
    case Failure(e) => Outcome(c.session, c.request, c.sent, Failure(e))
    case Success(reply) => Outcome(c.session, c.request, c.sent, parser(reply))
  }

  // The RPC method names, as UTF-8; all of them are ASCII.

  /** "nvim_input" */
  const NVIM_INPUT: Bytes := [0x6E, 0x76, 0x69, 0x6D, 0x5F, 0x69, 0x6E, 0x70, 0x75, 0x74]

  /** "nvim_buf_get_lines" */
  const NVIM_BUF_GET_LINES: Bytes := [0x6E, 0x76, 0x69, 0x6D, 0x5F, 0x62, 0x75, 0x66, 0x5F, 0x67, 0x65, 0x74, 0x5F, 0x6C, 0x69, 0x6E, 0x65, 0x73]

  /** "nvim_buf_set_lines" */
  const NVIM_BUF_SET_LINES: Bytes := [0x6E, 0x76, 0x69, 0x6D, 0x5F, 0x62, 0x75, 0x66, 0x5F, 0x73, 0x65, 0x74, 0x5F, 0x6C, 0x69, 0x6E, 0x65, 0x73]

  /** "nvim_win_get_cursor" */
  const NVIM_WIN_GET_CURSOR: Bytes := [0x6E, 0x76, 0x69, 0x6D, 0x5F, 0x77, 0x69, 0x6E, 0x5F, 0x67, 0x65, 0x74, 0x5F, 0x63, 0x75, 0x72, 0x73, 0x6F, 0x72]

  /** "nvim_win_set_cursor" */
  const NVIM_WIN_SET_CURSOR: Bytes := [0x6E, 0x76, 0x69, 0x6D, 0x5F, 0x77, 0x69, 0x6E, 0x5F, 0x73, 0x65, 0x74, 0x5F, 0x63, 0x75, 0x72, 0x73, 0x6F, 0x72]

  /** "nvim_get_mode" */
  const NVIM_GET_MODE: Bytes := [0x6E, 0x76, 0x69, 0x6D, 0x5F, 0x67, 0x65, 0x74, 0x5F, 0x6D, 0x6F, 0x64, 0x65]

  /** The six methods the session calls. */
  datatype RpcMethod = NvimInput | NvimBufGetLines | NvimBufSetLines | NvimWinGetCursor | NvimWinSetCursor | NvimGetMode

  function MethodName(m: RpcMethod): (b: Bytes)
    ensures ValidUtf8(b) && 0 < |b| < 32
  {
    match m
    case NvimInput => AsciiBytesIsUtf8(NVIM_INPUT); NVIM_INPUT
    case NvimBufGetLines => AsciiBytesIsUtf8(NVIM_BUF_GET_LINES); NVIM_BUF_GET_LINES
    case NvimBufSetLines => AsciiBytesIsUtf8(NVIM_BUF_SET_LINES); NVIM_BUF_SET_LINES
    case NvimWinGetCursor => AsciiBytesIsUtf8(NVIM_WIN_GET_CURSOR); NVIM_WIN_GET_CURSOR
    case NvimWinSetCursor => AsciiBytesIsUtf8(NVIM_WIN_SET_CURSOR); NVIM_WIN_SET_CURSOR
    case NvimGetMode => AsciiBytesIsUtf8(NVIM_GET_MODE); NVIM_GET_MODE
  }

  /** `r` is the request `[0, id, method, params]` for method `m`. */
  predicate IsRequest(r: Value, id: int, m: RpcMethod, params: seq<Value>) {
    r.Arr? && |r.items| == 4 && r.items[0] == Int(0) && r.items[1] == Int(id)
    && r.items[2] == Str(MethodName(m)) && r.items[3] == Arr(params)
  }

  /** `callRPC(method:params:)` for one of the session's own methods. */
  function CallMethod(s: Session, m: RpcMethod, params: seq<Value>, answer: Bytes): (c: Call)
    requires s.messageId + 1 < U32_LIMIT && forall k :: 0 <= k < |params| ==> Representable(params[k])
    ensures c == CallRpc(s, MethodName(m), params, answer)
  {
    CallRpc(s, MethodName(m), params, answer)
  }

  predicate Int32(i: int) {
    -0x8000_0000 <= i < U32_LIMIT
  }

  function Ignore(reply: seq<Value>): Result<(), RpcError> {
    Success(())
  }

  /** `sendInput`: `nvim_input` with the keys as its one parameter; the reply
      is not inspected, so any reply that decodes is a success. */
  function SendInput(s: Session, input: Bytes, answer: Bytes): (o: Outcome<()>)
    requires s.messageId + 1 < U32_LIMIT && ValidUtf8(input)
    ensures o.session == s.(messageId := s.messageId + 1)
    ensures IsRequest(o.request, s.messageId + 1, NvimInput, [Str(input)])
    ensures !s.running ==> o.result == Failure(NotRunning)
    ensures o.sent.Some? && |answer| > 0 ==> (o.result.Success? <==> NvimRpc.Decode(answer).Success?)
  {
    Parsed(CallMethod(s, NvimInput, [Str(input)], answer), Ignore)
  }

  /** `getBufferLines`: lines `start ..< end` of `buffer`, not strict about
      out-of-range indices. */
  function GetBufferLines(s: Session, buffer: int, start: int, end: int, answer: Bytes): (o: Outcome<seq<Bytes>>)
    requires s.messageId + 1 < U32_LIMIT && Int32(buffer) && Int32(start) && Int32(end)
    ensures o.session == s.(messageId := s.messageId + 1)
    ensures IsRequest(o.request, s.messageId + 1, NvimBufGetLines, [Int(buffer), Int(start), Int(end), Bool(false)])
    ensures !s.running ==> o.result == Failure(NotRunning)
    ensures o.sent.Some? && |answer| > 0 && NvimRpc.Decode(answer).Success? ==>
              o.result == NvimResponses.BufferLines(NvimRpc.Decode(answer).value)
  {
    Parsed(CallMethod(s, NvimBufGetLines, [Int(buffer), Int(start), Int(end), Bool(false)], answer),
           NvimResponses.BufferLines)
  }

  /** `setBufferLines`: replaces lines `start ..< end` with `lines`, sent as
      an array of strings; the reply is not inspected. */
  function SetBufferLines(s: Session, buffer: int, start: int, end: int, lines: seq<Bytes>, answer: Bytes): (o: Outcome<()>)
    requires s.messageId + 1 < U32_LIMIT && Int32(buffer) && Int32(start) && Int32(end)
    requires forall k :: 0 <= k < |lines| ==> ValidUtf8(lines[k])
    ensures o.session == s.(messageId := s.messageId + 1)
    ensures IsRequest(o.request, s.messageId + 1, NvimBufSetLines, [Int(buffer), Int(start), Int(end), Bool(false), LinesValue(lines)])
    ensures !s.running ==> o.result == Failure(NotRunning)
    ensures o.sent.Some? && |answer| > 0 ==> (o.result.Success? <==> NvimRpc.Decode(answer).Success?)
  {
    Parsed(CallMethod(s, NvimBufSetLines, [Int(buffer), Int(start), Int(end), Bool(false), LinesValue(lines)], answer),
           Ignore)
  }

  /** The `[String]` parameter as a value. */
  function LinesValue(lines: seq<Bytes>): (v: Value)
    requires forall k :: 0 <= k < |lines| ==> ValidUtf8(lines[k])
    ensures Representable(v) && v.Arr? && |v.items| == |lines|
    ensures forall k :: 0 <= k < |lines| ==> v.items[k] == Str(lines[k])
  {
    Arr(seq(|lines|, k requires 0 <= k < |lines| => Str(lines[k])))
  }

  /** `getCursorPosition`: Neovim's 1-based row comes back 0-based. */
  function GetCursorPosition(s: Session, window: int, answer: Bytes): (o: Outcome<(int, int)>)
    requires s.messageId + 1 < U32_LIMIT && Int32(window)
    ensures o.session == s.(messageId := s.messageId + 1)
    ensures IsRequest(o.request, s.messageId + 1, NvimWinGetCursor, [Int(window)])
    ensures !s.running ==> o.result == Failure(NotRunning)
    ensures o.sent.Some? && |answer| > 0 && NvimRpc.Decode(answer).Success? ==>
              o.result == NvimResponses.CursorPosition(NvimRpc.Decode(answer).value)
  {
    Parsed(CallMethod(s, NvimWinGetCursor, [Int(window)], answer), NvimResponses.CursorPosition)
  }

  /** The parameters `setCursorPosition` sends: the window and the
      `[row + 1, col]` pair, Neovim's rows being 1-based. */
  function CursorParams(window: int, row: int, col: int): (p: seq<Value>)
    ensures |p| == 2 && p[0] == Int(window) && p[1].Arr? && |p[1].items| == 2
    ensures p[1].items[0] == Int(row + 1) && p[1].items[1] == Int(col)
  {
    [Int(window), Arr([Int(row + 1), Int(col)])]
  }

  /** `setCursorPosition`: the reply is not inspected. */
  function SetCursorPosition(s: Session, window: int, row: int, col: int, answer: Bytes): (o: Outcome<()>)
    requires s.messageId + 1 < U32_LIMIT && Int32(window) && Int32(row + 1) && Int32(col)
    ensures o.session == s.(messageId := s.messageId + 1)
    ensures IsRequest(o.request, s.messageId + 1, NvimWinSetCursor, CursorParams(window, row, col))
    ensures !s.running ==> o.result == Failure(NotRunning)
    ensures o.sent.Some? && |answer| > 0 ==> (o.result.Success? <==> NvimRpc.Decode(answer).Success?)
  {
    Parsed(CallMethod(s, NvimWinSetCursor, CursorParams(window, row, col), answer), Ignore)
  }

  /** `getMode`: the mode string and the blocking flag. */
  function GetMode(s: Session, answer: Bytes): (o: Outcome<(Bytes, bool)>)
    requires s.messageId + 1 < U32_LIMIT
    ensures o.session == s.(messageId := s.messageId + 1)
    ensures IsRequest(o.request, s.messageId + 1, NvimGetMode, [])
    ensures !s.running ==> o.result == Failure(NotRunning)
    ensures o.sent.Some? && |answer| > 0 && NvimRpc.Decode(answer).Success? ==>
              o.result == NvimResponses.Mode(NvimRpc.Decode(answer).value)
  {
    Parsed(CallMethod(s, NvimGetMode, [], answer), NvimResponses.Mode)
  }

  // ------------------------------------------------------------ properties

  /** One request of a run of calls. */
  datatype Request = Request(name: Bytes, params: seq<Value>, answer: Bytes)

  predicate WellFormed(q: Request) {
    ValidUtf8(q.name) && forall k :: 0 <= k < |q.params| ==> Representable(q.params[k])
  }

  /** The calls of a run, one after the other. */
  function Run(s: Session, qs: seq<Request>): (cs: seq<Call>)
    requires s.messageId + |qs| < U32_LIMIT
    requires forall k :: 0 <= k < |qs| ==> WellFormed(qs[k])
    ensures |cs| == |qs|
    decreases |qs|
  {
    if |qs| == 0 then []
    else
      assert WellFormed(qs[0]);
      var c := CallRpc(s, qs[0].name, qs[0].params, qs[0].answer);
      [c] + Run(c.session, qs[1..])
  }

  /** Message ids go 1, 2, 3, ...: the k-th call (from 0) of a run from a
      fresh session builds its request with id k + 1 and leaves the counter at
      k + 1, whether or not the session is running. */
  lemma {:induction false} IdsCountUp(s: Session, qs: seq<Request>, k: nat)
    requires s.messageId + |qs| < U32_LIMIT
    requires forall j :: 0 <= j < |qs| ==> WellFormed(qs[j])
    requires k < |qs|
    ensures Run(s, qs)[k].session.messageId == s.messageId + k + 1
    ensures Run(s, qs)[k].request == NvimRpc.CreateRequest(s.messageId + k + 1, qs[k].name, qs[k].params)
    decreases k
  {
    var c := CallRpc(s, qs[0].name, qs[0].params, qs[0].answer);
    assert Run(s, qs) == [c] + Run(c.session, qs[1..]);
    if k > 0 {
      IdsCountUp(c.session, qs[1..], k - 1);
    }
  }

  /** Ids are strictly increasing along a run. */
  lemma IdsIncrease(s: Session, qs: seq<Request>, i: nat, j: nat)
    requires s.messageId + |qs| < U32_LIMIT
    requires forall k :: 0 <= k < |qs| ==> WellFormed(qs[k])
    requires i < j < |qs|
    ensures Run(s, qs)[i].session.messageId < Run(s, qs)[j].session.messageId
  {
    IdsCountUp(s, qs, i);
    IdsCountUp(s, qs, j);
  }

  /** What `callRPC` writes is the request: for a request the session's own
      decoder can read (ids up to 127, at most 15 parameters), a running
      session always writes something, and decoding it gives back the request's
      four elements. */
  lemma SentDecodesToRequest(s: Session, name: Bytes, params: seq<Value>, answer: Bytes)
    requires s.messageId + 1 <= 127 && ValidUtf8(name) && |name| < U16_LIMIT && |params| <= 15
    requires forall k :: 0 <= k < |params| ==> Representable(params[k]) && NvimRpcProperties.SessionDecodable(params[k])
    ensures var c := CallRpc(s, name, params, answer);
            (s.running <==> c.sent.Some?) && (c.sent.Some? ==> NvimRpc.Decode(c.sent.value) == Success(c.request.items))
  {
    var c := CallRpc(s, name, params, answer);
    var request := NvimRpc.CreateRequest(s.messageId + 1, name, params);
    assert NvimRpcProperties.SessionDecodable(request.items[3]);
    assert NvimRpcProperties.SessionDecodable(request);
    NvimRpcProperties.RoundTrip(request, []);
    assert NvimRpc.Encode(request).value + [] == NvimRpc.Encode(request).value;
  }

  /** An encoded `[tag, msgid, false, [row + 1, col]]` response, as Neovim
      would send it for `nvim_win_get_cursor`, decodes to its elements, and
      the cursor accessor reads `(row, col)` from them. */
  lemma CursorAnswerDecodes(window: int, row: int, col: int, tag: int, msgid: int)
    requires -32 <= tag <= 127 && -32 <= msgid <= 127 && -32 <= row + 1 <= 127 && -32 <= col <= 127
    ensures var reply := Arr([Int(tag), Int(msgid), Bool(false), CursorParams(window, row, col)[1]]);
            NvimRpc.Encode(reply).Success? && |NvimRpc.Encode(reply).value| > 0
            && NvimRpc.Decode(NvimRpc.Encode(reply).value) == Success(reply.items)
            && NvimResponses.CursorPosition(reply.items) == Success((row, col))
  {
    var pair := CursorParams(window, row, col)[1];
    var reply := Arr([Int(tag), Int(msgid), Bool(false), pair]);
    assert NvimRpcProperties.SessionDecodable(pair);
    assert NvimRpcProperties.SessionDecodable(reply);
    NvimRpcProperties.RoundTrip(reply, []);
    var answer := NvimRpc.Encode(reply).value;
    assert answer + [] == answer;
    NvimResponses.CursorShiftInverse([Int(tag), Int(msgid), Bool(false)], row, col);
    assert [Int(tag), Int(msgid), Bool(false)] + [pair] == reply.items;
  }

  /** A running session always gets `nvim_win_get_cursor` out, and then reads
      the cursor from whatever reply Neovim's answer decodes to. */
  lemma GetCursorReadsReply(s: Session, window: int, answer: Bytes, reply: seq<Value>)
    requires s.running && s.messageId + 1 < U32_LIMIT && Int32(window)
    requires |answer| > 0 && NvimRpc.Decode(answer) == Success(reply)
    ensures GetCursorPosition(s, window, answer).result == NvimResponses.CursorPosition(reply)
  {
    var o := GetCursorPosition(s, window, answer);
    RequestEncodable(o.request, s.messageId + 1, MethodName(NvimWinGetCursor), window);
  }

  /** A request `[0, id, name, [window]]` with a short name can be encoded. */
  lemma RequestEncodable(r: Value, id: int, name: Bytes, window: int)
    requires 0 <= id < U32_LIMIT && Int32(window) && |name| < 32
    requires r.Arr? && |r.items| == 4 && r.items[0] == Int(0) && r.items[1] == Int(id)
    requires r.items[2] == Str(name) && r.items[3] == Arr([Int(window)])
    ensures Encodable(r)
  {
    assert r.items[3].items == [Int(window)];
    forall k | 0 <= k < |r.items| ensures Encodable(r.items[k]) {
      assert k == 0 || k == 1 || k == 2 || k == 3;
    }
  }

  /** The cursor setter and getter are inverse: if Neovim answers the getter
      with the pair the setter sent, the getter returns the original
      position. The answer is an encoded response `[tag, msgid, false, pair]`
      for a position the session decoder can read; neither `tag` nor `msgid`
      has to match the request. */
  lemma CursorRoundTrip(s: Session, window: int, row: int, col: int, tag: int, msgid: int)
    requires s.running && s.messageId + 1 < U32_LIMIT && Int32(window)
    requires -32 <= tag <= 127 && -32 <= msgid <= 127 && -32 <= row + 1 <= 127 && -32 <= col <= 127
    ensures var reply := Arr([Int(tag), Int(msgid), Bool(false), CursorParams(window, row, col)[1]]);
            NvimRpc.Encode(reply).Success?
            && GetCursorPosition(s, window, NvimRpc.Encode(reply).value).result == Success((row, col))
  {
    var reply := Arr([Int(tag), Int(msgid), Bool(false), CursorParams(window, row, col)[1]]);
    CursorAnswerDecodes(window, row, col, tag, msgid);
    GetCursorReadsReply(s, window, NvimRpc.Encode(reply).value, reply.items);
  }
}
