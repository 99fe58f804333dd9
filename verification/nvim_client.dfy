/** The older MessagePack codec of `NvimClient`
    (Sources/Interface/Vim/NVimRPC/NvimClient.swift). Its encoder is a copy of
    the session's; its decoder insists on an array at the top level and, below
    it, also reads str 32, array 16 and 32, and map 16 and 32. The fixstr,
    str 8 and str 16 readers are verbatim copies of the session's and are
    shared with `NvimRpc`. */
module NvimClient {
  import opened Wrappers
  import opened Bytes
  import opened MsgPack
  import IntFormat
  import NvimRpc

  /** `createRpcRequest`: the same `[0, id, method, params]` shape. */
  function CreateRpcRequest(id: nat, name: Bytes, params: seq<Value>): (r: Value)
    requires id < U32_LIMIT
    ensures r == NvimRpc.CreateRequest(id, name, params)
  {
    Arr([Int(0), Int(id), Str(name), Arr(params)])
  }

  // ---------------------------------------------------------------- encoder

  /** `encodeValue`; byte for byte the session's encoder. */
  function EncodeValue(v: Value): (r: Result<Bytes, RpcError>)
    requires Representable(v)
    ensures r.Success? <==> Encodable(v)
    ensures r == NvimRpc.EncodeValue(v)
    decreases v, 1
  {
    match v
    case Arr(xs) => EncodeArray(xs)
    case Str(b) => EncodeString(b)
    case Int(i) => Success(IntFormat.EncodeInt(i))
    case Bool(b) => Success([if b then 0xC3 else 0xC2])
    case _ => Failure(CommunicationFailed(UnsupportedType))
  }

  function EncodeArray(xs: seq<Value>): (r: Result<Bytes, RpcError>)
    requires forall k :: 0 <= k < |xs| ==> Representable(xs[k])
    ensures r == NvimRpc.EncodeArray(xs)
    decreases xs, 1
  {
    if |xs| <= 15 then
      var body :- EncodeItems(xs);
      Success([0x90 + |xs|] + body)
    else if |xs| <= 0xFFFF then
      var body :- EncodeItems(xs);
      Success([0xDC] + Split16(|xs|) + body)
    else Failure(CommunicationFailed(ArrayTooLarge))
  }

  function EncodeItems(xs: seq<Value>): (r: Result<Bytes, RpcError>)
    requires forall k :: 0 <= k < |xs| ==> Representable(xs[k])
    ensures r == NvimRpc.EncodeItems(xs)
    decreases xs, 0
  {
    if |xs| == 0 then Success([])
    else
      var head :- EncodeValue(xs[0]);
      var tail :- EncodeItems(xs[1..]);
      Success(head + tail)
  }

  function EncodeString(b: Bytes): (r: Result<Bytes, RpcError>)
    ensures r == NvimRpc.EncodeString(b)
  {
    if |b| <= 31 then Success([0xA0 + |b|] + b)
    else if |b| <= 0xFF then Success([0xD9, |b|] + b)
    else if |b| <= 0xFFFF then Success([0xDA] + Split16(|b|) + b)
    else Failure(CommunicationFailed(StringTooLarge))
  }

  /** `encodeMessagePack`. */
  function EncodeMessagePack(v: Value): (r: Result<Bytes, RpcError>)
    requires Representable(v)
    ensures r == NvimRpc.Encode(v)
  {
    EncodeValue(v)
  }

  // ---------------------------------------------------------------- decoder

  /** The format bytes this decoder turns away: never used (0xC1) and the bin,
      ext, float, uint, int and fixext families (0xC4 .. 0xD8). */
  predicate ClientRejects(f: uint8) {
    f == 0xC1 || 0xC4 <= f <= 0xD8
  }

  predicate DecodeError(e: RpcError) {
    e.InvalidResponse? && (e.why.UnsupportedFormat? ==> ClientRejects(e.why.format))
  }

  type Decoded<T> = NvimRpc.Decoded<T>

  /** `decodeMessagePack`: the element list of the array at the start of
      `data`; whatever follows it is ignored. */
  function DecodeMessagePack(data: Bytes): (r: Result<seq<Value>, RpcError>)
    ensures r.Failure? ==> DecodeError(r.error)
    ensures |data| > 0 && !(0x90 <= data[0] <= 0x9F || data[0] == 0xDC) ==>
              r == Failure(InvalidResponse(InvalidArrayFormat))
  {
    var (xs, _) :- DecodeArray(data, 0);
    Success(xs)
  }

  /** `decodeArray`: a fixarray or array 16 header and that many values. */
  function DecodeArray(data: Bytes, off: nat): (r: Decoded<seq<Value>>)
    requires off <= |data|
    ensures r.Success? ==> off < r.value.1 <= |data|
    ensures r.Failure? ==> DecodeError(r.error)
    decreases |data| - off, 0
  {
    if off == |data| then Failure(InvalidResponse(UnexpectedEnd))
    else
      var f := data[off];
      if 0x90 <= f <= 0x9F then DecodeItems(data, off + 1, f - 0x90, [])
      else if f == 0xDC then
        if off + 2 < |data| then DecodeItems(data, off + 3, BE16(data[off + 1], data[off + 2]), [])
        else Failure(InvalidResponse(UnexpectedEnd))
      else Failure(InvalidResponse(InvalidArrayFormat))
  }

  /** `decodeValue`. */
  function DecodeValue(data: Bytes, off: nat): (r: Decoded<Value>)
    requires off <= |data|
    ensures r.Success? ==> off < r.value.1 <= |data|
    ensures r.Failure? ==> DecodeError(r.error)
    decreases |data| - off, 1
  {
    if off == |data| then Failure(InvalidResponse(UnexpectedEnd))
    else
      var f := data[off];
      if f <= 0x7F then Success((Int(f), off + 1))
      else if f >= 0xE0 then Success((Int(f as int - 256), off + 1))
      else if f <= 0x8F then DecodeMap(data, off)
      else if f <= 0x9F then
        var (xs, end) :- DecodeArray(data, off);
        Success((Arr(xs), end))
      else if f <= 0xBF then NvimRpc.DecodeString(data, off)
      else if f == 0xC0 then Success((Nil, off + 1))
      else if f == 0xC2 then Success((Bool(false), off + 1))
      else if f == 0xC3 then Success((Bool(true), off + 1))
      else if f == 0xD9 then NvimRpc.DecodeString8(data, off)
      else if f == 0xDA then NvimRpc.DecodeString16(data, off)
      else if f == 0xDB then DecodeString32(data, off)
      else if f == 0xDC then DecodeArray16(data, off)
      else if f == 0xDD then DecodeArray32(data, off)
      else if f == 0xDE then DecodeMap16(data, off)
      else if f == 0xDF then DecodeMap32(data, off)
      else Failure(InvalidResponse(UnsupportedFormat(f)))
  }

  /** `count` more values appended to `acc` (the loops of the array readers). */
  function DecodeItems(data: Bytes, off: nat, count: nat, acc: seq<Value>): (r: Decoded<seq<Value>>)
    requires off <= |data|
    ensures r.Success? ==> off <= r.value.1 <= |data| && |r.value.0| == |acc| + count
    ensures r.Failure? ==> DecodeError(r.error)
    decreases |data| - off, 2, count
  {
    if count == 0 then Success((acc, off))
    else
      var (v, next) :- DecodeValue(data, off);
      DecodeItems(data, next, count - 1, acc + [v])
  }

  /** `count` more key-value pairs added to `acc` (the loops of the map
      readers); the key must be a string, checked after the value is read. */
  function DecodeEntries(data: Bytes, off: nat, count: nat, acc: map<Bytes, Value>): (r: Decoded<map<Bytes, Value>>)
    requires off <= |data|
    ensures r.Success? ==> off <= r.value.1 <= |data|
    ensures r.Failure? ==> DecodeError(r.error)
    decreases |data| - off, 2, count
  {
    if count == 0 then Success((acc, off))
    else
      var (key, afterKey) :- DecodeValue(data, off);
      var (value, afterValue) :- DecodeValue(data, afterKey);
      if key.Str? then DecodeEntries(data, afterValue, count - 1, acc[key.bytes := value])
      else Failure(InvalidResponse(MapKeyNotString))
  }

  /** `decodeMap`: a fixmap. */
  function DecodeMap(data: Bytes, off: nat): (r: Decoded<Value>)
    requires off < |data| && 0x80 <= data[off] <= 0x8F
    ensures r.Success? ==> off < r.value.1 <= |data| && r.value.0.Map?
    ensures r.Failure? ==> DecodeError(r.error)
    decreases |data| - off, 0
  {
    var (m, end) :- DecodeEntries(data, off + 1, data[off] - 0x80, map[]);
    Success((Map(m), end))
  }

  /** `decodeString32`: four big-endian length bytes, all of which must be
      present. */
  function DecodeString32(data: Bytes, off: nat): (r: Decoded<Value>)
    requires off < |data|
    ensures r.Success? ==> off < r.value.1 <= |data| && r.value.0.Str?
    ensures r.Failure? ==> NvimRpc.StringError(r.error)
    ensures off + 4 >= |data| ==> r == Failure(InvalidResponse(UnexpectedEnd))
  {
    if off + 4 < |data| then
      NvimRpc.StringBody(data, off + 5, BE32(data[off + 1], data[off + 2], data[off + 3], data[off + 4]))
    else Failure(InvalidResponse(UnexpectedEnd))
  }

  /** `decodeArray16`. */
  function DecodeArray16(data: Bytes, off: nat): (r: Decoded<Value>)
    requires off < |data|
    ensures r.Success? ==> off < r.value.1 <= |data| && r.value.0.Arr?
    ensures r.Failure? ==> DecodeError(r.error)
    ensures off + 2 >= |data| ==> r == Failure(InvalidResponse(UnexpectedEnd))
    decreases |data| - off, 0
  {
    if off + 2 < |data| then
      var (xs, end) :- DecodeItems(data, off + 3, BE16(data[off + 1], data[off + 2]), []);
      Success((Arr(xs), end))
    else Failure(InvalidResponse(UnexpectedEnd))
  }

  /** `decodeArray32`. */
  function DecodeArray32(data: Bytes, off: nat): (r: Decoded<Value>)
    requires off < |data|
    ensures r.Success? ==> off < r.value.1 <= |data| && r.value.0.Arr?
    ensures r.Failure? ==> DecodeError(r.error)
    ensures off + 4 >= |data| ==> r == Failure(InvalidResponse(UnexpectedEnd))
    decreases |data| - off, 0
  {
    if off + 4 < |data| then
      var count := BE32(data[off + 1], data[off + 2], data[off + 3], data[off + 4]);
      var (xs, end) :- DecodeItems(data, off + 5, count, []);
      Success((Arr(xs), end))
    else Failure(InvalidResponse(UnexpectedEnd))
  }

  /** `decodeMap16`. */
  function DecodeMap16(data: Bytes, off: nat): (r: Decoded<Value>)
    requires off < |data|
    ensures r.Success? ==> off < r.value.1 <= |data| && r.value.0.Map?
    ensures r.Failure? ==> DecodeError(r.error)
    ensures off + 2 >= |data| ==> r == Failure(InvalidResponse(UnexpectedEnd))
    decreases |data| - off, 0
  {
    if off + 2 < |data| then
      var (m, end) :- DecodeEntries(data, off + 3, BE16(data[off + 1], data[off + 2]), map[]);
      Success((Map(m), end))
    else Failure(InvalidResponse(UnexpectedEnd))
  }

  /** `decodeMap32`. */
  function DecodeMap32(data: Bytes, off: nat): (r: Decoded<Value>)
    requires off < |data|
    ensures r.Success? ==> off < r.value.1 <= |data| && r.value.0.Map?
    ensures r.Failure? ==> DecodeError(r.error)
    ensures off + 4 >= |data| ==> r == Failure(InvalidResponse(UnexpectedEnd))
    decreases |data| - off, 0
  {
    if off + 4 < |data| then
      var count := BE32(data[off + 1], data[off + 2], data[off + 3], data[off + 4]);
      var (m, end) :- DecodeEntries(data, off + 5, count, map[]);
      Success((Map(m), end))
    else Failure(InvalidResponse(UnexpectedEnd))
  }
}
