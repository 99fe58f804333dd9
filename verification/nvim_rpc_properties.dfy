/** What `NvimRPC.decode` makes of what `NvimRPC.encode` emits. The decoder
    reads only positive and negative fixint, fixstr, str 8, str 16, fixarray,
    fixmap, nil and booleans, so the round trip holds exactly on the values
    built from integers -32 .. 127, booleans, strings and arrays of at most 15
    elements. */
module NvimRpcProperties {
  import opened Wrappers
  import opened Bytes
  import opened MsgPack
  import opened NvimRpc

  /** The values whose encoding the session decoder reads back. */
  predicate SessionDecodable(v: Value)
    decreases v
  {
    match v
    case Int(i) => -32 <= i <= 127
    case Bool(_) => true
    case Str(b) => |b| < U16_LIMIT
    case Arr(xs) => |xs| <= 15 && forall k :: 0 <= k < |xs| ==> SessionDecodable(xs[k])
    case _ => false
  }

  lemma {:induction false} DecodableIsEncodable(v: Value)
    requires SessionDecodable(v)
    ensures Encodable(v)
    decreases v
  {
    match v
    case Arr(xs) =>
      forall k | 0 <= k < |xs|
        ensures Encodable(xs[k])
      {
        DecodableIsEncodable(xs[k]);
      }
    case _ =>
  }

  /** The bytes `encode` emits for an encodable value. */
  function Enc(v: Value): (e: Bytes)
    requires Representable(v) && Encodable(v)
    ensures |e| > 0
  {
    EncodeValue(v).value
  }

  function EncItems(xs: seq<Value>): Bytes
    requires forall k :: 0 <= k < |xs| ==> Representable(xs[k]) && Encodable(xs[k])
  {
    EncodeItems(xs).value
  }

  lemma EncArrayShape(xs: seq<Value>)
    requires Representable(Arr(xs)) && Encodable(Arr(xs)) && |xs| <= 15
    ensures Enc(Arr(xs)) == [0x90 + |xs|] + EncItems(xs)
  {
    assert EncodeValue(Arr(xs)) == EncodeArray(xs);
    assert EncodeItems(xs).Success?;
  }

  // ------------------------------------------------------ the round trip

  /** Decoding at `off` where the encoding of a decodable value sits yields
      that value and the offset just past its encoding, whatever follows. */
  lemma {:induction false} DecodeEncoded(v: Value, data: Bytes, off: nat)
    requires Representable(v) && SessionDecodable(v) && Encodable(v)
    requires off + |Enc(v)| <= |data| && data[off..off + |Enc(v)|] == Enc(v)
    ensures DecodeValue(data, off) == Success((v, off + |Enc(v)|))
    decreases v, 1
  {
    var e := Enc(v);
    SliceAt(data, off, e, 0);
    match v
    case Int(i) =>
    case Bool(b) =>
    case Str(b) =>
      DecodeEncodedString(b, data, off);
    case Arr(xs) =>
      DecodeEncodedArray(xs, data, off);
  }

  lemma {:induction false} DecodeEncodedArray(xs: seq<Value>, data: Bytes, off: nat)
    requires Representable(Arr(xs)) && SessionDecodable(Arr(xs)) && Encodable(Arr(xs))
    requires off + |Enc(Arr(xs))| <= |data| && data[off..off + |Enc(Arr(xs))|] == Enc(Arr(xs))
    ensures DecodeValue(data, off) == Success((Arr(xs), off + |Enc(Arr(xs))|))
    decreases xs, 2
  {
    var body := EncItems(xs);
    EncArrayShape(xs);
    SliceAt(data, off, Enc(Arr(xs)), 0);
    SliceConcat(data, off, [0x90 + |xs|], body);
    DecodeItemsEncoded(xs, data, off + 1, []);
    assert [] + xs == xs;
  }

  /** A string's encoding, whichever of the three headers it carries, reads
      back as that string. */
  lemma DecodeEncodedString(b: Bytes, data: Bytes, off: nat)
    requires ValidUtf8(b) && |b| < U16_LIMIT
    requires off + |EncodeString(b).value| <= |data|
    requires data[off..off + |EncodeString(b).value|] == EncodeString(b).value
    ensures DecodeValue(data, off) == Success((Str(b), off + |EncodeString(b).value|))
  {
    var e := EncodeString(b).value;
    SliceAt(data, off, e, 0);
    if |b| <= 31 {
      FixstrBody(b, data, off);
    } else if |b| <= 0xFF {
      Str8Body(b, data, off);
    } else {
      Str16Body(b, data, off);
    }
  }

  // The layout lemmas below do the slicing without `ValidUtf8` in scope; the
  // decoder lemmas then use only the facts they return.

  lemma FixstrLayout(b: Bytes, data: Bytes, off: nat)
    requires |b| <= 31
    requires off + 1 + |b| <= |data| && data[off..off + 1 + |b|] == [0xA0 + |b|] + b
    ensures data[off] == 0xA0 + |b| && data[off + 1..off + 1 + |b|] == b
  {
    SliceAt(data, off, [0xA0 + |b|] + b, 0);
    SliceConcat(data, off, [0xA0 + |b|], b);
  }

  lemma Str8Layout(b: Bytes, data: Bytes, off: nat)
    requires |b| <= 0xFF
    requires off + 2 + |b| <= |data| && data[off..off + 2 + |b|] == [0xD9, |b|] + b
    ensures data[off + 1] == |b| && data[off + 2..off + 2 + |b|] == b
  {
    SliceAt(data, off, [0xD9, |b|] + b, 1);
    SliceConcat(data, off, [0xD9, |b|], b);
  }

  lemma Str16Layout(b: Bytes, data: Bytes, off: nat)
    requires |b| < U16_LIMIT
    requires off + 3 + |b| <= |data| && data[off..off + 3 + |b|] == [0xDA] + Split16(|b|) + b
    ensures BE16(data[off + 1], data[off + 2]) == |b| && data[off + 3..off + 3 + |b|] == b
  {
    var e := [0xDA] + Split16(|b|) + b;
    SliceAt(data, off, e, 1);
    SliceAt(data, off, e, 2);
    SliceConcat(data, off, [0xDA] + Split16(|b|), b);
  }

  lemma FixstrBody(b: Bytes, data: Bytes, off: nat)
    requires ValidUtf8(b) && |b| <= 31
    requires off + 1 + |b| <= |data| && data[off..off + 1 + |b|] == [0xA0 + |b|] + b
    ensures DecodeString(data, off) == Success((Str(b), off + 1 + |b|))
  {
    FixstrLayout(b, data, off);
  }

  lemma Str8Body(b: Bytes, data: Bytes, off: nat)
    requires ValidUtf8(b) && |b| <= 0xFF
    requires off + 2 + |b| <= |data| && data[off..off + 2 + |b|] == [0xD9, |b|] + b
    ensures DecodeString8(data, off) == Success((Str(b), off + 2 + |b|))
  {
    Str8Layout(b, data, off);
  }

  lemma Str16Body(b: Bytes, data: Bytes, off: nat)
    requires ValidUtf8(b) && |b| < U16_LIMIT
    requires off + 3 + |b| <= |data| && data[off..off + 3 + |b|] == [0xDA] + Split16(|b|) + b
    ensures DecodeString16(data, off) == Success((Str(b), off + 3 + |b|))
  {
    Str16Layout(b, data, off);
  }

  lemma {:induction false} DecodeItemsEncoded(xs: seq<Value>, data: Bytes, off: nat, acc: seq<Value>)
    requires forall k :: 0 <= k < |xs| ==> Representable(xs[k]) && SessionDecodable(xs[k]) && Encodable(xs[k])
    requires off + |EncItems(xs)| <= |data| && data[off..off + |EncItems(xs)|] == EncItems(xs)
    ensures DecodeItems(data, off, |xs|, acc) == Success((acc + xs, off + |EncItems(xs)|))
    decreases xs, 0
  {
    if |xs| == 0 {
      assert acc + xs == acc;
    } else {
      var h := Enc(xs[0]);
      var t := EncItems(xs[1..]);
      EncItemsCons(xs);
      SliceConcat(data, off, h, t);
      DecodeEncoded(xs[0], data, off);
      DecodeItemsStep(data, off, |xs|, acc, xs[0], off + |h|);
      assert forall k :: 0 <= k < |xs[1..]| ==> xs[1..][k] == xs[k + 1];
      DecodeItemsEncoded(xs[1..], data, off + |h|, acc + [xs[0]]);
      assert off + |h| + |t| == off + |EncItems(xs)|;
      AppendCons(acc, xs);
    }
  }

  lemma EncItemsCons(xs: seq<Value>)
    requires |xs| > 0 && forall k :: 0 <= k < |xs| ==> Representable(xs[k]) && Encodable(xs[k])
    ensures EncItems(xs) == Enc(xs[0]) + EncItems(xs[1..])
  {
  }

  lemma AppendCons<T>(acc: seq<T>, xs: seq<T>)
    requires |xs| > 0
    ensures acc + [xs[0]] + xs[1..] == acc + xs
  {
  }

  /** `decodeArray`'s loop reads one value and goes on after it. */
  lemma DecodeItemsStep(data: Bytes, off: nat, n: nat, acc: seq<Value>, v: Value, next: nat)
    requires off <= |data| && n > 0 && DecodeValue(data, off) == Success((v, next))
    ensures next <= |data| && DecodeItems(data, off, n, acc) == DecodeItems(data, next, n - 1, acc + [v])
  {
  }

  /** The encoding of an encodable value outside the decodable subset never
      decodes: an integer outside -32 .. 127 starts with a uint or int format
      byte and an array of 16 or more elements with `0xDC`, all rejected. */
  lemma {:induction false} DecodeRejectsEncoded(v: Value, data: Bytes, off: nat)
    requires Representable(v) && Encodable(v) && !SessionDecodable(v)
    requires off + |Enc(v)| <= |data| && data[off..off + |Enc(v)|] == Enc(v)
    ensures DecodeValue(data, off).Failure?
    decreases v, 1
  {
    var e := Enc(v);
    SliceAt(data, off, e, 0);
    match v
    case Int(i) =>
    case Arr(xs) =>
      if |xs| <= 15 {
        var body := EncItems(xs);
        EncArrayShape(xs);
        SliceConcat(data, off, [0x90 + |xs|], body);
        var k :| 0 <= k < |xs| && !SessionDecodable(xs[k]);
        DecodeItemsRejected(xs, k, data, off + 1, []);
      }
  }

  lemma {:induction false} DecodeItemsRejected(xs: seq<Value>, bad: nat, data: Bytes, off: nat, acc: seq<Value>)
    requires forall k :: 0 <= k < |xs| ==> Representable(xs[k]) && Encodable(xs[k])
    requires bad < |xs| && !SessionDecodable(xs[bad])
    requires off + |EncItems(xs)| <= |data| && data[off..off + |EncItems(xs)|] == EncItems(xs)
    ensures DecodeItems(data, off, |xs|, acc).Failure?
    decreases xs, 0
  {
    var h := Enc(xs[0]);
    var t := EncItems(xs[1..]);
    assert EncItems(xs) == h + t;
    SliceConcat(data, off, h, t);
    if !SessionDecodable(xs[0]) {
      DecodeRejectsEncoded(xs[0], data, off);
    } else {
      DecodeEncoded(xs[0], data, off);
      DecodeItemsRejected(xs[1..], bad - 1, data, off + |h|, acc + [xs[0]]);
    }
  }

  /** Every strict prefix of the encoding of a decodable value fails to
      decode: each length is checked against the bytes that remain. */
  lemma {:induction false} DecodeTruncatedFails(v: Value, data: Bytes, off: nat)
    requires Representable(v) && SessionDecodable(v) && Encodable(v)
    requires off <= |data| < off + |Enc(v)| && data[off..] == Enc(v)[..|data| - off]
    ensures DecodeValue(data, off).Failure?
    decreases v, 1
  {
    var e := Enc(v);
    if off < |data| {
      PrefixAt(data, off, e, 0);
      match v
      case Str(b) =>
        if 31 < |b| && off + 1 < |data| {
          PrefixAt(data, off, e, 1);
          if 0xFF < |b| && off + 2 < |data| {
            PrefixAt(data, off, e, 2);
          }
        }
      case Arr(xs) =>
        var body := EncItems(xs);
        EncArrayShape(xs);
        PrefixOfConcat(data, off, [0x90 + |xs|], body);
        DecodeItemsTruncated(xs, data, off + 1, []);
    }
  }

  lemma {:induction false} DecodeItemsTruncated(xs: seq<Value>, data: Bytes, off: nat, acc: seq<Value>)
    requires forall k :: 0 <= k < |xs| ==> Representable(xs[k]) && SessionDecodable(xs[k]) && Encodable(xs[k])
    requires off <= |data| < off + |EncItems(xs)| && data[off..] == EncItems(xs)[..|data| - off]
    ensures DecodeItems(data, off, |xs|, acc).Failure?
    decreases xs, 0
  {
    var h := Enc(xs[0]);
    var t := EncItems(xs[1..]);
    assert EncItems(xs) == h + t;
    PrefixOfConcat(data, off, h, t);
    if |data| - off < |h| {
      DecodeTruncatedFails(xs[0], data, off);
    } else {
      DecodeEncoded(xs[0], data, off);
      DecodeItemsTruncated(xs[1..], data, off + |h|, acc + [xs[0]]);
    }
  }

  // ------------------------------------------------- top-level statements

  /** The round trip through `encode` and `decode`: an array comes back as its
      element list and any other value as a one-element list, and bytes after
      the encoding are ignored. */
  lemma RoundTrip(v: Value, rest: Bytes)
    requires Representable(v) && SessionDecodable(v)
    ensures Encode(v).Success?
    ensures Decode(Encode(v).value + rest) == Success(if v.Arr? then v.items else [v])
  {
    DecodableIsEncodable(v);
    var data := Enc(v) + rest;
    assert data[0..|Enc(v)|] == Enc(v);
    DecodeEncoded(v, data, 0);
  }

  /** For an encodable value, decoding its encoding succeeds exactly on the
      decodable subset. */
  lemma RoundTripExactlyOnDecodable(v: Value, rest: Bytes)
    requires Representable(v) && Encodable(v)
    ensures Decode(Encode(v).value + rest).Success? <==> SessionDecodable(v)
  {
    var data := Enc(v) + rest;
    assert data[0..|Enc(v)|] == Enc(v);
    if SessionDecodable(v) {
      DecodeEncoded(v, data, 0);
    } else {
      DecodeRejectsEncoded(v, data, 0);
    }
  }

  /** `decode` reads one value and ignores whatever bytes follow it. */
  lemma TrailingBytesIgnored(v: Value, rest: Bytes)
    requires Representable(v) && SessionDecodable(v)
    ensures Encode(v).Success?
    ensures Decode(Encode(v).value + rest) == Decode(Encode(v).value)
  {
    RoundTrip(v, rest);
    RoundTrip(v, []);
    assert Encode(v).value + [] == Encode(v).value;
  }

  /** A scalar and the one-element array holding it decode to the same list. */
  lemma ScalarLooksLikeSingleton(x: Value)
    requires Representable(x) && SessionDecodable(x) && !x.Arr?
    ensures Encode(x).Success? && Encode(Arr([x])).Success?
    ensures Decode(Encode(x).value) == Decode(Encode(Arr([x])).value)
  {
    RoundTrip(x, []);
    assert Representable(Arr([x])) && SessionDecodable(Arr([x]));
    RoundTrip(Arr([x]), []);
    assert Encode(x).value + [] == Encode(x).value;
    assert Encode(Arr([x])).value + [] == Encode(Arr([x])).value;
  }

  /** Every strict prefix of an encoding of a decodable value, including the
      empty one, is rejected with `invalidResponse`. */
  lemma StrictPrefixRejected(v: Value, n: nat)
    requires Representable(v) && SessionDecodable(v)
    ensures Encode(v).Success?
    ensures n < |Encode(v).value| ==> Decode(Encode(v).value[..n]).Failure?
    ensures n < |Encode(v).value| ==> Decode(Encode(v).value[..n]).error.InvalidResponse?
  {
    DecodableIsEncodable(v);
    if n < |Enc(v)| {
      var data := Enc(v)[..n];
      assert data[0..] == Enc(v)[..|data| - 0];
      DecodeTruncatedFails(v, data, 0);
    }
  }

  /** The format bytes the session decoder turns away: exactly those for which
      it reports "Unsupported format" for the first byte. */
  lemma UnsupportedFormatsExactly(data: Bytes, off: nat)
    requires off < |data|
    ensures DecodeValue(data, off) == Failure(InvalidResponse(UnsupportedFormat(data[off])))
            <==> SessionRejects(data[off])
  {
  }

  /** Encodings of integers outside -32 .. 127 and of arrays of 16 or more
      elements are never read back. */
  lemma WideIntsAndLongArraysRejected(v: Value, rest: Bytes)
    requires Representable(v) && Encodable(v)
    requires (v.Int? && !(-32 <= v.i <= 127)) || (v.Arr? && |v.items| > 15)
    ensures Decode(Encode(v).value + rest) == Failure(InvalidResponse(UnsupportedFormat(Encode(v).value[0])))
  {
    var data := Enc(v) + rest;
    assert data[0] == Enc(v)[0];
  }

  /** `starts`, `mids`, `keys` and `vals` describe `|keys|` map entries read
      one after another from `data`: entry `i` has a string key `keys[i]`
      starting at `starts[i]` and a value `vals[i]` starting at `mids[i]`, and
      the next entry starts where the value ends. */
  predicate EntryWalk(data: Bytes, starts: seq<nat>, mids: seq<nat>, keys: seq<Bytes>, vals: seq<Value>)
  {
    && |starts| == |keys| + 1 && |mids| == |keys| && |vals| == |keys|
    && starts[0] <= |data| && starts[|keys|] <= |data|
    && forall i :: 0 <= i < |keys| ==>
         && starts[i] <= |data| && mids[i] <= |data|
         && DecodeValue(data, starts[i]) == Success((Str(keys[i]), mids[i]))
         && DecodeValue(data, mids[i]) == Success((vals[i], starts[i + 1]))
  }

  /** The entries of a walk with its first entry dropped. */
  lemma EntryWalkTail(data: Bytes, starts: seq<nat>, mids: seq<nat>, keys: seq<Bytes>, vals: seq<Value>)
    requires EntryWalk(data, starts, mids, keys, vals) && |keys| > 0
    ensures EntryWalk(data, starts[1..], mids[1..], keys[1..], vals[1..])
  {
    forall i | 0 <= i < |keys| - 1
      ensures DecodeValue(data, starts[1..][i]) == Success((Str(keys[1..][i]), mids[1..][i]))
      ensures DecodeValue(data, mids[1..][i]) == Success((vals[1..][i], starts[1..][i + 1]))
    {
      assert starts[1..][i] == starts[i + 1] && starts[1..][i + 1] == starts[i + 2];
    }
  }

  /** Reading the entries of a walk assigns them in order into the
      accumulated dictionary. */
  lemma {:induction false} EntriesWalked(data: Bytes, starts: seq<nat>, mids: seq<nat>, keys: seq<Bytes>, vals: seq<Value>,
                                         acc: map<Bytes, Value>)
    requires EntryWalk(data, starts, mids, keys, vals)
    ensures DecodeEntries(data, starts[0], |keys|, acc) == Success((Stored(acc, keys, vals), starts[|keys|]))
    decreases |keys|
  {
    if |keys| > 0 {
      EntryWalkTail(data, starts, mids, keys, vals);
      EntriesWalked(data, starts[1..], mids[1..], keys[1..], vals[1..], acc[keys[0] := vals[0]]);
    }
  }

  /** Once `|keys|` string-keyed entries have been read, an entry whose key
      decodes to anything but a string fails the whole map, as soon as its
      value has been read too. */
  lemma {:induction false} EntriesRejectKey(data: Bytes, starts: seq<nat>, mids: seq<nat>, keys: seq<Bytes>, vals: seq<Value>,
                                            acc: map<Bytes, Value>, count: nat)
    requires EntryWalk(data, starts, mids, keys, vals) && |keys| < count
    requires DecodeValue(data, starts[|keys|]).Success? && !DecodeValue(data, starts[|keys|]).value.0.Str?
    requires DecodeValue(data, DecodeValue(data, starts[|keys|]).value.1).Success?
    ensures DecodeEntries(data, starts[0], count, acc) == Failure(InvalidResponse(MapKeyNotString))
    decreases |keys|
  {
    if |keys| > 0 {
      EntryWalkTail(data, starts, mids, keys, vals);
      EntriesRejectKey(data, starts[1..], mids[1..], keys[1..], vals[1..], acc[keys[0] := vals[0]], count - 1);
    }
  }

  /** A fixmap reads as the dictionary its entries build in order, so a
      repeated key keeps its last value. */
  lemma FixmapWalked(data: Bytes, off: nat, starts: seq<nat>, mids: seq<nat>, keys: seq<Bytes>, vals: seq<Value>)
    requires EntryWalk(data, starts, mids, keys, vals)
    requires off < |data| && 0x80 <= data[off] <= 0x8F && data[off] - 0x80 == |keys| && starts[0] == off + 1
    ensures DecodeValue(data, off) == Success((Map(Stored(map[], keys, vals)), starts[|keys|]))
  {
    EntriesWalked(data, starts, mids, keys, vals, map[]);
    assert DecodeValue(data, off) == DecodeMap(data, off);
  }

  /** A fixmap whose key at any entry decodes to anything but a string is
      rejected, once that key and its value have been read. */
  lemma NonStringKeyRejected(data: Bytes, off: nat, starts: seq<nat>, mids: seq<nat>, keys: seq<Bytes>, vals: seq<Value>)
    requires EntryWalk(data, starts, mids, keys, vals)
    requires off < |data| && 0x80 <= data[off] <= 0x8F && |keys| < data[off] - 0x80 && starts[0] == off + 1
    requires DecodeValue(data, starts[|keys|]).Success? && !DecodeValue(data, starts[|keys|]).value.0.Str?
    requires DecodeValue(data, DecodeValue(data, starts[|keys|]).value.1).Success?
    ensures DecodeValue(data, off) == Failure(InvalidResponse(MapKeyNotString))
  {
    EntriesRejectKey(data, starts, mids, keys, vals, map[], data[off] - 0x80);
    assert DecodeValue(data, off) == DecodeMap(data, off);
  }

  /** A string whose declared length runs past the end of the data is
      rejected without reading past the end. */
  lemma OverlongStringRejected(data: Bytes, off: nat)
    requires off < |data| && 0xA0 <= data[off] <= 0xBF
    requires off + 1 + (data[off] - 0xA0) > |data|
    ensures DecodeValue(data, off) == Failure(InvalidResponse(StringLengthExceedsData))
  {
  }
}
