/** `NvimRPC` (Sources/Interface/Vim/Sessions/NvimSession.swift): request
    construction and the MessagePack encoder and decoder the session uses. The
    decoder accepts only part of what the encoder emits; the lemmas at the end
    pin that part down exactly. */
module NvimRpc {
  import opened Wrappers
  import opened Bytes
  import opened MsgPack
  import IntFormat

  /** `createRequest`: the request message of the MessagePack-RPC
      specification, `[type = 0, msgid, method, params]`. */
  function CreateRequest(id: nat, name: Bytes, params: seq<Value>): (r: Value)
    requires id < U32_LIMIT
    ensures r.Arr? && |r.items| == 4
    ensures r.items[0] == Int(0) && r.items[1] == Int(id)
    ensures r.items[2] == Str(name) && r.items[3] == Arr(params)
  {
    Arr([Int(0), Int(id), Str(name), Arr(params)])
  }

  // ---------------------------------------------------------------- encoder

  /** `encodeValue`: arrays, strings, integers and booleans in the smallest
      MessagePack format; anything else is `communicationFailed`. */
  function EncodeValue(v: Value): (r: Result<Bytes, RpcError>)
    requires Representable(v)
    ensures r.Success? <==> Encodable(v)
    ensures r.Failure? ==> r.error.CommunicationFailed?
    ensures r.Success? ==> |r.value| > 0
    decreases v, 1
  {
    match v
    case Arr(xs) => EncodeArray(xs)
    case Str(b) => EncodeString(b)
    case Int(i) => Success(IntFormat.EncodeInt(i))
    case Bool(b) => Success([if b then 0xC3 else 0xC2])
    case _ => Failure(CommunicationFailed(UnsupportedType))
  }

  /** `encodeArray`: fixarray up to 15 elements, array 16 up to 65535, then
      every element in order. */
  function EncodeArray(xs: seq<Value>): (r: Result<Bytes, RpcError>)
    requires forall k :: 0 <= k < |xs| ==> Representable(xs[k])
    ensures r.Success? <==> Encodable(Arr(xs))
    ensures r.Failure? ==> r.error.CommunicationFailed?
    ensures r.Success? ==> |r.value| > 0
    ensures r.Success? && |xs| <= 15 ==> r.value[0] == 0x90 + |xs|
    ensures r.Success? && |xs| > 15 ==> |r.value| >= 3 && r.value[0] == 0xDC
    decreases xs, 1
  {
    if |xs| <= 15 then
      var body :- EncodeItems(xs);
      Success([0x90 + |xs|] + body)
    else if |xs| <= 0xFFFF then
      var body :- EncodeItems(xs);
      Success([0xDC] + Split16(|xs|) + body)
    else Failure(CommunicationFailed(ArrayTooLarge))
  }

  /** The concatenated encodings of `xs`, or the first element's error. */
  function EncodeItems(xs: seq<Value>): (r: Result<Bytes, RpcError>)
    requires forall k :: 0 <= k < |xs| ==> Representable(xs[k])
    ensures r.Success? <==> forall k :: 0 <= k < |xs| ==> Encodable(xs[k])
    ensures r.Failure? ==> r.error.CommunicationFailed?
    decreases xs, 0
  {
    if |xs| == 0 then Success([])
    else
      var head :- EncodeValue(xs[0]);
      var tail :- EncodeItems(xs[1..]);
      Success(head + tail)
  }

  /** `encodeString`: fixstr up to 31 bytes, str 8 up to 255, str 16 up to
      65535, then the UTF-8 bytes. */
  function EncodeString(b: Bytes): (r: Result<Bytes, RpcError>)
    ensures r.Success? <==> |b| < U16_LIMIT
    ensures r.Failure? ==> r.error == CommunicationFailed(StringTooLarge)
    ensures |b| <= 31 ==> r == Success([0xA0 + |b|] + b)
    ensures 31 < |b| <= 0xFF ==> r == Success([0xD9, |b|] + b)
    ensures 0xFF < |b| < U16_LIMIT ==> r == Success([0xDA] + Split16(|b|) + b)
  {
    if |b| <= 31 then Success([0xA0 + |b|] + b)
    else if |b| <= 0xFF then Success([0xD9, |b|] + b)
    else if |b| <= 0xFFFF then Success([0xDA] + Split16(|b|) + b)
    else Failure(CommunicationFailed(StringTooLarge))
  }

  /** `encode`. */
  function Encode(v: Value): (r: Result<Bytes, RpcError>)
    requires Representable(v)
    ensures r.Success? <==> Encodable(v)
    ensures r.Failure? ==> r.error.CommunicationFailed?
  {
    EncodeValue(v)
  }

  // ---------------------------------------------------------------- decoder

  /** The format bytes `decodeValue` rejects with "Unsupported format": never
      used (0xC1), bin, ext, float, every uint and int family and fixext
      (0xC4 .. 0xD8), str 32, array 16 and 32, map 16 and 32 (0xDB .. 0xDF). */
  predicate SessionRejects(f: uint8) {
    f == 0xC1 || 0xC4 <= f <= 0xD8 || 0xDB <= f <= 0xDF
  }

  /** Every decoder failure is `invalidResponse`, and "Unsupported format" is
      only ever reported for a rejected format byte. */
  predicate DecodeError(e: RpcError) {
    e.InvalidResponse? && (e.why.UnsupportedFormat? ==> SessionRejects(e.why.format))
  }

  type Decoded<T> = Result<(T, nat), RpcError>

  /** The failures a string decoder can report. */
  predicate StringError(e: RpcError) {
    e == InvalidResponse(UnexpectedEnd) || e == InvalidResponse(StringLengthExceedsData)
    || e == InvalidResponse(InvalidUtf8)
  }

  /** `decodeValue` reading at `off`: the value and the offset just after it. */
  function DecodeValue(data: Bytes, off: nat): (r: Decoded<Value>)
    requires off <= |data|
    ensures r.Success? ==> off < r.value.1 <= |data|
    ensures r.Failure? ==> DecodeError(r.error)
    decreases |data| - off, 1
  {
    if off == |data| then Failure(InvalidResponse(UnexpectedEnd))
    else
      var f := data[off];
      if f <= 0x7F then Success((Int(f), off + 1))
      else if f >= 0xE0 then Success((Int(f as int - 256), off + 1))
      else if f <= 0x8F then DecodeMap(data, off)
      else if f <= 0x9F then DecodeArray(data, off)
      else if f <= 0xBF then DecodeString(data, off)
      else if f == 0xC0 then Success((Nil, off + 1))
      else if f == 0xC2 then Success((Bool(false), off + 1))
      else if f == 0xC3 then Success((Bool(true), off + 1))
      else if f == 0xD9 then DecodeString8(data, off)
      else if f == 0xDA then DecodeString16(data, off)
      else Failure(InvalidResponse(UnsupportedFormat(f)))
  }

  /** `decodeArray`: a fixarray or array 16 header, then that many values. */
  function DecodeArray(data: Bytes, off: nat): (r: Decoded<Value>)
    requires off <= |data|
    ensures r.Success? ==> off < r.value.1 <= |data| && r.value.0.Arr?
    ensures r.Failure? ==> DecodeError(r.error)
    decreases |data| - off, 0
  {
    if off == |data| then Failure(InvalidResponse(UnexpectedEnd))
    else
      var f := data[off];
      if 0x90 <= f <= 0x9F then
        var (xs, end) :- DecodeItems(data, off + 1, f - 0x90, []);
        Success((Arr(xs), end))
      else if f == 0xDC then
        if off + 2 < |data| then
          var (xs, end) :- DecodeItems(data, off + 3, BE16(data[off + 1], data[off + 2]), []);
          Success((Arr(xs), end))
        else Failure(InvalidResponse(UnexpectedEnd))
      else Failure(InvalidResponse(InvalidArrayFormat))
  }

  /** The loop of `decodeArray`: `count` more values appended to `acc`. */
  function DecodeItems(data: Bytes, off: nat, count: nat, acc: seq<Value>): (r: Decoded<seq<Value>>)
    requires off <= |data|
    ensures r.Success? ==> off <= r.value.1 <= |data| && |r.value.0| == |acc| + count
    ensures r.Failure? ==> DecodeError(r.error)
    decreases |data| - off, 2, count
  {
    if count == 0 then Success((acc, off))
    else
      var (v, next) :- DecodeValue(data, off);
      DecodeItems(data, next, count - 1, acc + [v])
  }

  /** `decodeMap`: a fixmap header, then `count` key-value pairs. */
  function DecodeMap(data: Bytes, off: nat): (r: Decoded<Value>)
    requires off < |data| && 0x80 <= data[off] <= 0x8F
    ensures r.Success? ==> off < r.value.1 <= |data| && r.value.0.Map?
    ensures r.Failure? ==> DecodeError(r.error)
    decreases |data| - off, 0
  {
    var (m, end) :- DecodeEntries(data, off + 1, data[off] - 0x80, map[]);
    Success((Map(m), end))
  }

  /** The loop of `decodeMap`: a key and a value are both decoded before the
      key is checked to be a string; a repeated key keeps the later value. */
  function DecodeEntries(data: Bytes, off: nat, count: nat, acc: map<Bytes, Value>): (r: Decoded<map<Bytes, Value>>)
    requires off <= |data|
    ensures r.Success? ==> off <= r.value.1 <= |data|
    ensures r.Failure? ==> DecodeError(r.error)
    decreases |data| - off, 2, count
  {
    if count == 0 then Success((acc, off))
    else
      var (key, afterKey) :- DecodeValue(data, off);
      var (value, afterValue) :- DecodeValue(data, afterKey);
      if key.Str? then DecodeEntries(data, afterValue, count - 1, acc[key.bytes := value])
      else Failure(InvalidResponse(MapKeyNotString))
  }

  /** The common tail of the string decoders: `len` bytes at `off`, which must
      all be present and form valid UTF-8. */
  function StringBody(data: Bytes, off: nat, len: nat): (r: Decoded<Value>)
    requires off <= |data|
    ensures r.Success? <==> off + len <= |data| && ValidUtf8(data[off..off + len])
    ensures r.Success? ==> r.value == (Str(data[off..off + len]), off + len)
    ensures r.Failure? ==> StringError(r.error)
    ensures off + len > |data| ==> r == Failure(InvalidResponse(StringLengthExceedsData))
  {
    if off + len <= |data| then
      if ValidUtf8(data[off..off + len]) then Success((Str(data[off..off + len]), off + len))
      else Failure(InvalidResponse(InvalidUtf8))
    else Failure(InvalidResponse(StringLengthExceedsData))
  }

  /** `decodeString`: a fixstr. */
  function DecodeString(data: Bytes, off: nat): (r: Decoded<Value>)
    requires off < |data| && 0xA0 <= data[off] <= 0xBF
    ensures r.Success? ==> off < r.value.1 <= |data|
    ensures r.Failure? ==> StringError(r.error)
  {
    StringBody(data, off + 1, data[off] - 0xA0)
  }

  /** `decodeString8`: one length byte. */
  function DecodeString8(data: Bytes, off: nat): (r: Decoded<Value>)
    requires off < |data|
    ensures r.Success? ==> off < r.value.1 <= |data|
    ensures r.Failure? ==> StringError(r.error)
  {
    if off + 1 < |data| then StringBody(data, off + 2, data[off + 1])
    else Failure(InvalidResponse(UnexpectedEnd))
  }

  /** `decodeString16`: two big-endian length bytes. */
  function DecodeString16(data: Bytes, off: nat): (r: Decoded<Value>)
    requires off < |data|
    ensures r.Success? ==> off < r.value.1 <= |data|
    ensures r.Failure? ==> StringError(r.error)
  {
    if off + 2 < |data| then StringBody(data, off + 3, BE16(data[off + 1], data[off + 2]))
    else Failure(InvalidResponse(UnexpectedEnd))
  }

  /** `decode`: one value read from the start of `data`, returned as its
      element list when it is an array and as a one-element list otherwise.
      Bytes after that value are ignored. */
  function Decode(data: Bytes): (r: Result<seq<Value>, RpcError>)
    ensures r.Failure? <==> DecodeValue(data, 0).Failure?
    ensures r.Failure? ==> DecodeError(r.error)
    ensures |data| == 0 ==> r == Failure(InvalidResponse(UnexpectedEnd))
  {
    var (v, _) :- DecodeValue(data, 0);
    if v.Arr? then Success(v.items) else Success([v])
  }
}
