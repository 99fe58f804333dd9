/** The dynamically typed values that the Swift RPC code passes around as `Any`
    and the errors it throws (`NvimClientError`, declared identically in
    NvimSession.swift and NvimClient.swift). */
module MsgPack {
  import opened Bytes

  /** A value the encoders accept or the decoders produce:
      `Int` for Swift `Int`/`UInt32`, `Str` for a Swift `String` held as its
      UTF-8 bytes, `Bool`, `Nil` for `NSNull`, `Arr` for `[Any]` and `Map` for
      `[String: Any]`. */
  datatype Value =
    | Int(i: int)
    | Str(bytes: Bytes)
    | Bool(b: bool)
    | Nil
    | Arr(items: seq<Value>)
    | Map(entries: map<Bytes, Value>)

  /** Why an encode or a response read failed (`communicationFailed`).
      One constructor stands for the message texts of both copies of the
      code, which differ in wording only. */
  datatype CommFailure =
    | UnsupportedType    // "Unsupported type" in the session, "Unsupported type for encoding" in the client
    | ArrayTooLarge
    | StringTooLarge
    | NoDataReceived     // "No data received" in the session, "No data received from nvim" in the client
    | Timeout

  /** Why a decode or a response accessor failed (`invalidResponse`), with
      the same convention as `CommFailure`. */
  datatype DecodeFailure =
    | UnexpectedEnd      // "Unexpected end" in the session, "Unexpected end of data" in the client
    | InvalidArrayFormat
    | UnsupportedFormat(format: uint8)
    | MapKeyNotString
    | StringLengthExceedsData
    | InvalidUtf8        // "Invalid UTF-8" in the session, "Invalid UTF-8 string" in the client
    | FailedBufferLines
    | FailedCursorPosition
    | FailedMode

  datatype RpcError =
    | StartupFailed
    | CommunicationFailed(comm: CommFailure)
    | InvalidResponse(why: DecodeFailure)
    | NotRunning

  /** What the Swift types guarantee of a value handed to an encoder: strings
      are well-formed UTF-8, and every integer survives the `UInt32(value)`
      and `Int32(value)` conversions the encoders perform (outside that range
      the conversion traps). */
  predicate Representable(v: Value)
    decreases v
  {
    match v
    case Int(i) => -0x8000_0000 <= i < U32_LIMIT
    case Str(b) => ValidUtf8(b)
    case Arr(xs) => forall k :: 0 <= k < |xs| ==> Representable(xs[k])
    case _ => true
  }

  /** The values the encoders turn into bytes instead of throwing: no `NSNull`,
      no dictionary, no string or array longer than 65535. */
  predicate Encodable(v: Value)
    decreases v
  {
    match v
    case Int(_) => true
    case Bool(_) => true
    case Str(b) => |b| < U16_LIMIT
    case Arr(xs) => |xs| < U16_LIMIT && forall k :: 0 <= k < |xs| ==> Encodable(xs[k])
    case _ => false
  }

  /** The dictionary that assigning `keys[i]: vals[i]` into `acc` one entry
      after another builds, as a decoder's `result[key] = value` loop does. */
  function Stored(acc: map<Bytes, Value>, keys: seq<Bytes>, vals: seq<Value>): (r: map<Bytes, Value>)
    requires |keys| == |vals|
    decreases |keys|
  {
    if |keys| == 0 then acc else Stored(acc[keys[0] := vals[0]], keys[1..], vals[1..])
  }

  /** Every assigned key is present, a key keeps the value of its last
      occurrence, and keys never assigned keep their old value. */
  lemma {:induction false} StoredLastWins(acc: map<Bytes, Value>, keys: seq<Bytes>, vals: seq<Value>)
    requires |keys| == |vals|
    ensures Stored(acc, keys, vals).Keys == acc.Keys + set k | k in keys
    ensures forall j :: 0 <= j < |keys| && keys[j] !in keys[j + 1..] ==> Stored(acc, keys, vals)[keys[j]] == vals[j]
    ensures forall k :: k in acc && k !in keys ==> Stored(acc, keys, vals)[k] == acc[k]
    decreases |keys|
  {
    if |keys| > 0 {
      var acc', keys', vals' := acc[keys[0] := vals[0]], keys[1..], vals[1..];
      StoredLastWins(acc', keys', vals');
      assert forall k :: k in keys <==> k == keys[0] || k in keys';
      forall j | 1 <= j < |keys| && keys[j] !in keys[j + 1..]
        ensures Stored(acc, keys, vals)[keys[j]] == vals[j]
      {
        assert keys'[j - 1] == keys[j] && keys'[j..] == keys[j + 1..];
      }
    }
  }

}
