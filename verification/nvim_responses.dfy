/** The response accessors that `NvimSession` (NvimSession.swift) and
    `NvimClient` (NvimClient.swift) apply to a decoded reply, identical in both
    files. A reply is the element list `decode` returns; only element 3, the
    result of the MessagePack-RPC response, is ever looked at. */
module NvimResponses {
  import opened Wrappers
  import opened Bytes
  import opened MsgPack

  /** "mode" and "blocking" as UTF-8. */
  const MODE_KEY: Bytes := [0x6D, 0x6F, 0x64, 0x65]
  const BLOCKING_KEY: Bytes := [0x62, 0x6C, 0x6F, 0x63, 0x6B, 0x69, 0x6E, 0x67]

  /** The reply has a result element, which is what every accessor needs. */
  predicate HasResult(reply: seq<Value>) {
    |reply| >= 4
  }

  /** `response[3] as? [String]`. */
  function BufferLines(reply: seq<Value>): (r: Result<seq<Bytes>, RpcError>)
    ensures r.Success? <==> HasResult(reply) && reply[3].Arr?
                            && forall k :: 0 <= k < |reply[3].items| ==> reply[3].items[k].Str?
    ensures r.Success? ==> |r.value| == |reply[3].items|
                           && forall k :: 0 <= k < |r.value| ==> reply[3].items[k] == Str(r.value[k])
    ensures r.Failure? ==> r.error == InvalidResponse(FailedBufferLines)
  {
    if HasResult(reply) && reply[3].Arr? && forall k :: 0 <= k < |reply[3].items| ==> reply[3].items[k].Str? then
      Success(seq(|reply[3].items|, k requires 0 <= k < |reply[3].items| => reply[3].items[k].bytes))
    else Failure(InvalidResponse(FailedBufferLines))
  }

  /** `response[3] as? [Int]` with at least two elements: Neovim's 1-based
      row becomes 0-based, the 0-based column is kept. */
  function CursorPosition(reply: seq<Value>): (r: Result<(int, int), RpcError>)
    ensures r.Success? <==> HasResult(reply) && reply[3].Arr? && |reply[3].items| >= 2
                            && forall k :: 0 <= k < |reply[3].items| ==> reply[3].items[k].Int?
    ensures r.Success? ==> reply[3].items[0] == Int(r.value.0 + 1) && reply[3].items[1] == Int(r.value.1)
    ensures r.Failure? ==> r.error == InvalidResponse(FailedCursorPosition)
  {
    if HasResult(reply) && reply[3].Arr? && |reply[3].items| >= 2
       && forall k :: 0 <= k < |reply[3].items| ==> reply[3].items[k].Int? then
      Success((reply[3].items[0].i - 1, reply[3].items[1].i))
    else Failure(InvalidResponse(FailedCursorPosition))
  }

  /** `response[3] as? [String: Any]` holding a string under "mode"; a
      "blocking" entry that is not a boolean, or none at all, reads as false. */
  function Mode(reply: seq<Value>): (r: Result<(Bytes, bool), RpcError>)
    ensures r.Success? <==> HasResult(reply) && reply[3].Map? && MODE_KEY in reply[3].entries
                            && reply[3].entries[MODE_KEY].Str?
    ensures r.Success? ==> reply[3].entries[MODE_KEY] == Str(r.value.0)
    ensures r.Success? ==>
              (r.value.1 <==> (BLOCKING_KEY in reply[3].entries && reply[3].entries[BLOCKING_KEY] == Bool(true)))
    ensures r.Failure? ==> r.error == InvalidResponse(FailedMode)
  {
    if HasResult(reply) && reply[3].Map? && MODE_KEY in reply[3].entries
       && reply[3].entries[MODE_KEY].Str? then
      var m := reply[3].entries;
      var blocking := if BLOCKING_KEY in m && m[BLOCKING_KEY].Bool? then m[BLOCKING_KEY].b else false;
      Success((m[MODE_KEY].bytes, blocking))
    else Failure(InvalidResponse(FailedMode))
  }

  /** The accessors never look at the message type, the msgid or the error
      element: two replies with the same result element read the same. */
  lemma ResultElementOnly(a: seq<Value>, b: seq<Value>)
    requires HasResult(a) && HasResult(b) && a[3] == b[3]
    ensures BufferLines(a) == BufferLines(b)
    ensures CursorPosition(a) == CursorPosition(b)
    ensures Mode(a) == Mode(b)
  {
  }

  /** The mode map without a "blocking" entry reads as not blocking. */
  lemma BlockingDefaultsToFalse(reply: seq<Value>)
    requires HasResult(reply) && reply[3].Map? && MODE_KEY in reply[3].entries
    requires reply[3].entries[MODE_KEY].Str? && BLOCKING_KEY !in reply[3].entries
    ensures Mode(reply) == Success((reply[3].entries[MODE_KEY].bytes, false))
  {
  }

  /** The row shift is undone by the `row + 1` the cursor setter sends: a
      result element `[row + 1, col]` reads back as `(row, col)`. */
  lemma CursorShiftInverse(header: seq<Value>, row: int, col: int)
    requires |header| == 3
    ensures CursorPosition(header + [Arr([Int(row + 1), Int(col)])]) == Success((row, col))
  {
    var reply := header + [Arr([Int(row + 1), Int(col)])];
    assert reply[3] == Arr([Int(row + 1), Int(col)]);
  }

  /** Short replies, as `decode` returns for any non-array value, fail every
      accessor. */
  lemma ShortReplyRejected(reply: seq<Value>)
    requires |reply| < 4
    ensures BufferLines(reply) == Failure(InvalidResponse(FailedBufferLines))
    ensures CursorPosition(reply) == Failure(InvalidResponse(FailedCursorPosition))
    ensures Mode(reply) == Failure(InvalidResponse(FailedMode))
  {
  }
}
