/** What `NvimClient.decodeMessagePack` makes of what `encodeMessagePack`
    emits. Below the top level the client decoder reads array 16, so the round
    trip holds on every array of up to 65535 elements built from integers
    -32 .. 127, booleans and strings; the top level itself must be an array. */
module NvimClientProperties {
  import opened Wrappers
  import opened Bytes
  import opened MsgPack
  import opened NvimClient
  import NvimRpc
  import R = NvimRpcProperties

  /** The values whose encoding the client decoder reads back. */
  predicate ClientDecodable(v: Value)
    decreases v
  {
    match v
    case Int(i) => -32 <= i <= 127
    case Bool(_) => true
    case Str(b) => |b| < U16_LIMIT
    case Arr(xs) => |xs| < U16_LIMIT && forall k :: 0 <= k < |xs| ==> ClientDecodable(xs[k])
    case _ => false
  }

  lemma {:induction false} ClientDecodableIsEncodable(v: Value)
    requires ClientDecodable(v)
    ensures Encodable(v)
    decreases v
  {
    match v
    case Arr(xs) =>
      forall k | 0 <= k < |xs|
        ensures Encodable(xs[k])
      {
        ClientDecodableIsEncodable(xs[k]);
      }
    case _ =>
  }

  /** The session decoder reads a sub-language of the client decoder's. */
  lemma {:induction false} SessionDecodableIsClientDecodable(v: Value)
    requires R.SessionDecodable(v)
    ensures ClientDecodable(v)
    decreases v
  {
    match v
    case Arr(xs) =>
      forall k | 0 <= k < |xs|
        ensures ClientDecodable(xs[k])
      {
        SessionDecodableIsClientDecodable(xs[k]);
      }
    case _ =>
  }

  lemma EncArray16Shape(xs: seq<Value>)
    requires Representable(Arr(xs)) && Encodable(Arr(xs)) && 15 < |xs|
    ensures R.Enc(Arr(xs)) == [0xDC] + Split16(|xs|) + R.EncItems(xs)
  {
    assert NvimRpc.EncodeValue(Arr(xs)) == NvimRpc.EncodeArray(xs);
    assert NvimRpc.EncodeItems(xs).Success?;
  }

  lemma Array16Layout(n: nat, body: Bytes, data: Bytes, off: nat)
    requires n < U16_LIMIT
    requires off + 3 + |body| <= |data| && data[off..off + 3 + |body|] == [0xDC] + Split16(n) + body
    ensures data[off] == 0xDC && BE16(data[off + 1], data[off + 2]) == n
    ensures data[off + 3..off + 3 + |body|] == body
  {
    var e := [0xDC] + Split16(n) + body;
    SliceAt(data, off, e, 0);
    SliceAt(data, off, e, 1);
    SliceAt(data, off, e, 2);
    SliceConcat(data, off, [0xDC] + Split16(n), body);
  }

  // ------------------------------------------------------ the round trip

  /** Decoding at `off` where the encoding of a decodable value sits yields
      that value and the offset just past it. */
  lemma {:induction false} ClientDecodeEncoded(v: Value, data: Bytes, off: nat)
    requires Representable(v) && ClientDecodable(v) && Encodable(v)
    requires off + |R.Enc(v)| <= |data| && data[off..off + |R.Enc(v)|] == R.Enc(v)
    ensures DecodeValue(data, off) == Success((v, off + |R.Enc(v)|))
    decreases v, 1
  {
    var e := R.Enc(v);
    SliceAt(data, off, e, 0);
    match v
    case Int(i) =>
    case Bool(b) =>
    case Str(b) =>
      if |b| <= 31 {
        R.FixstrBody(b, data, off);
      } else if |b| <= 0xFF {
        R.Str8Body(b, data, off);
      } else {
        R.Str16Body(b, data, off);
      }
    case Arr(xs) =>
      ClientDecodeEncodedArray(xs, data, off);
  }

  /** Both the top-level reader and `decodeValue` read an encoded array back. */
  lemma {:induction false} ClientDecodeEncodedArray(xs: seq<Value>, data: Bytes, off: nat)
    requires Representable(Arr(xs)) && ClientDecodable(Arr(xs)) && Encodable(Arr(xs))
    requires off + |R.Enc(Arr(xs))| <= |data| && data[off..off + |R.Enc(Arr(xs))|] == R.Enc(Arr(xs))
    ensures DecodeArray(data, off) == Success((xs, off + |R.Enc(Arr(xs))|))
    ensures DecodeValue(data, off) == Success((Arr(xs), off + |R.Enc(Arr(xs))|))
    decreases xs, 3
  {
    if |xs| <= 15 {
      R.EncArrayShape(xs);
      FixarrayDecodes(xs, data, off);
    } else {
      EncArray16Shape(xs);
      Array16Decodes(xs, data, off);
    }
  }

  lemma {:induction false} FixarrayDecodes(xs: seq<Value>, data: Bytes, off: nat)
    requires |xs| <= 15
    requires forall k :: 0 <= k < |xs| ==> Representable(xs[k]) && ClientDecodable(xs[k]) && Encodable(xs[k])
    requires off + 1 + |R.EncItems(xs)| <= |data|
    requires data[off..off + 1 + |R.EncItems(xs)|] == [0x90 + |xs|] + R.EncItems(xs)
    ensures DecodeArray(data, off) == Success((xs, off + 1 + |R.EncItems(xs)|))
    ensures DecodeValue(data, off) == Success((Arr(xs), off + 1 + |R.EncItems(xs)|))
    decreases xs, 2
  {
    var body := R.EncItems(xs);
    SliceAt(data, off, [0x90 + |xs|] + body, 0);
    SliceConcat(data, off, [0x90 + |xs|], body);
    ClientItemsEncoded(xs, data, off + 1, []);
    assert [] + xs == xs;
  }

  lemma {:induction false} Array16Decodes(xs: seq<Value>, data: Bytes, off: nat)
    requires |xs| < U16_LIMIT
    requires forall k :: 0 <= k < |xs| ==> Representable(xs[k]) && ClientDecodable(xs[k]) && Encodable(xs[k])
    requires off + 3 + |R.EncItems(xs)| <= |data|
    requires data[off..off + 3 + |R.EncItems(xs)|] == [0xDC] + Split16(|xs|) + R.EncItems(xs)
    ensures DecodeArray(data, off) == Success((xs, off + 3 + |R.EncItems(xs)|))
    ensures DecodeValue(data, off) == Success((Arr(xs), off + 3 + |R.EncItems(xs)|))
    decreases xs, 2
  {
    Array16Layout(|xs|, R.EncItems(xs), data, off);
    ClientItemsEncoded(xs, data, off + 3, []);
    assert [] + xs == xs;
  }

  lemma {:induction false} ClientItemsEncoded(xs: seq<Value>, data: Bytes, off: nat, acc: seq<Value>)
    requires forall k :: 0 <= k < |xs| ==> Representable(xs[k]) && ClientDecodable(xs[k]) && Encodable(xs[k])
    requires off + |R.EncItems(xs)| <= |data| && data[off..off + |R.EncItems(xs)|] == R.EncItems(xs)
    ensures DecodeItems(data, off, |xs|, acc) == Success((acc + xs, off + |R.EncItems(xs)|))
    decreases xs, 0
  {
    if |xs| == 0 {
      assert acc + xs == acc;
    } else {
      var h := R.Enc(xs[0]);
      var t := R.EncItems(xs[1..]);
      R.EncItemsCons(xs);
      SliceConcat(data, off, h, t);
      ClientDecodeEncoded(xs[0], data, off);
      ClientItemsStep(data, off, |xs|, acc, xs[0], off + |h|);
      ClientItemsEncoded(xs[1..], data, off + |h|, acc + [xs[0]]);
      R.AppendCons(acc, xs);
    }
  }

  /** The client's array loop reads one value and goes on after it. */
  lemma ClientItemsStep(data: Bytes, off: nat, n: nat, acc: seq<Value>, v: Value, next: nat)
    requires off <= |data| && n > 0 && DecodeValue(data, off) == Success((v, next))
    ensures next <= |data| && DecodeItems(data, off, n, acc) == DecodeItems(data, next, n - 1, acc + [v])
  {
  }

  /** An encoding holding an integer outside -32 .. 127 never decodes: every
      uint and int format byte is still rejected. */
  lemma {:induction false} ClientRejectsEncoded(v: Value, data: Bytes, off: nat)
    requires Representable(v) && Encodable(v) && !ClientDecodable(v)
    requires off + |R.Enc(v)| <= |data| && data[off..off + |R.Enc(v)|] == R.Enc(v)
    ensures DecodeValue(data, off).Failure?
    ensures v.Arr? ==> DecodeArray(data, off).Failure?
    decreases v, 1
  {
    var e := R.Enc(v);
    SliceAt(data, off, e, 0);
    match v
    case Int(i) =>
    case Arr(xs) =>
      ClientRejectsArray(xs, data, off);
  }

  lemma {:induction false} ClientRejectsArray(xs: seq<Value>, data: Bytes, off: nat)
    requires Representable(Arr(xs)) && Encodable(Arr(xs)) && !ClientDecodable(Arr(xs))
    requires off + |R.Enc(Arr(xs))| <= |data| && data[off..off + |R.Enc(Arr(xs))|] == R.Enc(Arr(xs))
    ensures DecodeValue(data, off).Failure? && DecodeArray(data, off).Failure?
    decreases xs, 2
  {
    var k :| 0 <= k < |xs| && !ClientDecodable(xs[k]);
    var body := R.EncItems(xs);
    if |xs| <= 15 {
      R.EncArrayShape(xs);
      SliceAt(data, off, R.Enc(Arr(xs)), 0);
      SliceConcat(data, off, [0x90 + |xs|], body);
      ClientItemsRejected(xs, k, data, off + 1, []);
    } else {
      EncArray16Shape(xs);
      Array16Layout(|xs|, body, data, off);
      ClientItemsRejected(xs, k, data, off + 3, []);
    }
  }

  lemma {:induction false} ClientItemsRejected(xs: seq<Value>, bad: nat, data: Bytes, off: nat, acc: seq<Value>)
    requires forall k :: 0 <= k < |xs| ==> Representable(xs[k]) && Encodable(xs[k])
    requires bad < |xs| && !ClientDecodable(xs[bad])
    requires off + |R.EncItems(xs)| <= |data| && data[off..off + |R.EncItems(xs)|] == R.EncItems(xs)
    ensures DecodeItems(data, off, |xs|, acc).Failure?
    decreases xs, 0
  {
    var h := R.Enc(xs[0]);
    var t := R.EncItems(xs[1..]);
    assert R.EncItems(xs) == h + t;
    SliceConcat(data, off, h, t);
    if !ClientDecodable(xs[0]) {
      ClientRejectsEncoded(xs[0], data, off);
    } else {
      ClientDecodeEncoded(xs[0], data, off);
      ClientItemsRejected(xs[1..], bad - 1, data, off + |h|, acc + [xs[0]]);
    }
  }

  /** Every strict prefix of the encoding of a decodable value fails: each
      length field is read only when all its bytes are present, and each
      string length is checked against the bytes that remain. */
  lemma {:induction false} ClientTruncatedFails(v: Value, data: Bytes, off: nat)
    requires Representable(v) && ClientDecodable(v) && Encodable(v)
    requires off <= |data| < off + |R.Enc(v)| && data[off..] == R.Enc(v)[..|data| - off]
    ensures DecodeValue(data, off).Failure?
    ensures v.Arr? ==> DecodeArray(data, off).Failure?
    decreases v, 1
  {
    var e := R.Enc(v);
    if off < |data| {
      PrefixAt(data, off, e, 0);
      match v
      case Str(b) =>
        if 31 < |b| && off + 1 < |data| {
          PrefixAt(data, off, e, 1);
          if 0xFF < |b| && off + 2 < |data| {
            PrefixAt(data, off, e, 2);
          }
        }
      case Arr(xs) =>
        ClientTruncatedArray(xs, data, off);
    }
  }

  lemma {:induction false} ClientTruncatedArray(xs: seq<Value>, data: Bytes, off: nat)
    requires Representable(Arr(xs)) && ClientDecodable(Arr(xs)) && Encodable(Arr(xs))
    requires off < |data| < off + |R.Enc(Arr(xs))| && data[off..] == R.Enc(Arr(xs))[..|data| - off]
    ensures DecodeValue(data, off).Failure? && DecodeArray(data, off).Failure?
    decreases xs, 2
  {
    var e := R.Enc(Arr(xs));
    var body := R.EncItems(xs);
    PrefixAt(data, off, e, 0);
    if |xs| <= 15 {
      R.EncArrayShape(xs);
      PrefixOfConcat(data, off, [0x90 + |xs|], body);
      ClientItemsTruncated(xs, data, off + 1, []);
    } else {
      EncArray16Shape(xs);
      if off + 2 < |data| {
        PrefixAt(data, off, e, 1);
        PrefixAt(data, off, e, 2);
        PrefixOfConcat(data, off, [0xDC] + Split16(|xs|), body);
        ClientItemsTruncated(xs, data, off + 3, []);
      }
    }
  }

  lemma {:induction false} ClientItemsTruncated(xs: seq<Value>, data: Bytes, off: nat, acc: seq<Value>)
    requires forall k :: 0 <= k < |xs| ==> Representable(xs[k]) && ClientDecodable(xs[k]) && Encodable(xs[k])
    requires off <= |data| < off + |R.EncItems(xs)| && data[off..] == R.EncItems(xs)[..|data| - off]
    ensures DecodeItems(data, off, |xs|, acc).Failure?
    decreases xs, 0
  {
    var h := R.Enc(xs[0]);
    var t := R.EncItems(xs[1..]);
    assert R.EncItems(xs) == h + t;
    PrefixOfConcat(data, off, h, t);
    if |data| - off < |h| {
      ClientTruncatedFails(xs[0], data, off);
    } else {
      ClientDecodeEncoded(xs[0], data, off);
      ClientItemsTruncated(xs[1..], data, off + |h|, acc + [xs[0]]);
    }
  }

  // ------------------------------------------------- top-level statements

  /** The round trip through `encodeMessagePack` and `decodeMessagePack` for
      an RPC message, which is always an array; bytes after it are ignored. */
  lemma MessageRoundTrip(xs: seq<Value>, rest: Bytes)
    requires Representable(Arr(xs)) && ClientDecodable(Arr(xs))
    ensures EncodeMessagePack(Arr(xs)).Success?
    ensures DecodeMessagePack(EncodeMessagePack(Arr(xs)).value + rest) == Success(xs)
  {
    ClientDecodableIsEncodable(Arr(xs));
    var data := R.Enc(Arr(xs)) + rest;
    assert data[0..|R.Enc(Arr(xs))|] == R.Enc(Arr(xs));
    ClientDecodeEncodedArray(xs, data, 0);
  }

  /** For an encodable array, decoding its encoding succeeds exactly when
      every integer in it lies in -32 .. 127. */
  lemma MessageRoundTripExactlyOnDecodable(xs: seq<Value>, rest: Bytes)
    requires Representable(Arr(xs)) && Encodable(Arr(xs))
    ensures DecodeMessagePack(EncodeMessagePack(Arr(xs)).value + rest).Success? <==> ClientDecodable(Arr(xs))
  {
    var data := R.Enc(Arr(xs)) + rest;
    assert data[0..|R.Enc(Arr(xs))|] == R.Enc(Arr(xs));
    if ClientDecodable(Arr(xs)) {
      ClientDecodeEncodedArray(xs, data, 0);
    } else {
      ClientRejectsEncoded(Arr(xs), data, 0);
    }
  }

  /** Anything but an array at the top level is "Invalid array format". */
  lemma TopLevelScalarRejected(v: Value, rest: Bytes)
    requires Representable(v) && Encodable(v) && !v.Arr?
    ensures DecodeMessagePack(EncodeMessagePack(v).value + rest) == Failure(InvalidResponse(InvalidArrayFormat))
  {
    var data := R.Enc(v) + rest;
    assert data[0] == R.Enc(v)[0];
  }

  /** Every strict prefix of an encoded message, the empty one included, is
      rejected with `invalidResponse`. */
  lemma TruncatedMessageRejected(xs: seq<Value>, n: nat)
    requires Representable(Arr(xs)) && ClientDecodable(Arr(xs))
    ensures EncodeMessagePack(Arr(xs)).Success?
    ensures n < |EncodeMessagePack(Arr(xs)).value| ==> DecodeMessagePack(EncodeMessagePack(Arr(xs)).value[..n]).Failure?
    ensures n < |EncodeMessagePack(Arr(xs)).value| ==>
              DecodeMessagePack(EncodeMessagePack(Arr(xs)).value[..n]).error.InvalidResponse?
  {
    ClientDecodableIsEncodable(Arr(xs));
    if n < |R.Enc(Arr(xs))| {
      var data := R.Enc(Arr(xs))[..n];
      assert data[0..] == R.Enc(Arr(xs))[..|data| - 0];
      ClientTruncatedFails(Arr(xs), data, 0);
    }
  }

  /** The format bytes the client decoder reports as unsupported: exactly
      0xC1 and 0xC4 .. 0xD8, among them every uint and int family. */
  lemma ClientUnsupportedFormatsExactly(data: Bytes, off: nat)
    requires off < |data|
    ensures DecodeValue(data, off) == Failure(InvalidResponse(UnsupportedFormat(data[off])))
            <==> ClientRejects(data[off])
  {
  }

  /** Wherever the session decoder rejects a format byte the client decoder
      either rejects it too or is one of the five formats only it reads. */
  lemma ClientRejectsLess(f: uint8)
    ensures ClientRejects(f) ==> NvimRpc.SessionRejects(f)
    ensures NvimRpc.SessionRejects(f) && !ClientRejects(f) <==> 0xDB <= f <= 0xDF
  {
  }

  /** A length field cut short is "Unexpected end of data": str 8 needs one
      length byte, str 16, array 16 and map 16 two, and str 32, array 32 and
      map 32 four. */
  lemma ShortLengthFieldRejected(data: Bytes, off: nat)
    requires off < |data|
    requires (data[off] == 0xD9 && off + 1 >= |data|)
             || (data[off] in {0xDA, 0xDC, 0xDE} && off + 2 >= |data|)
             || (data[off] in {0xDB, 0xDD, 0xDF} && off + 4 >= |data|)
    ensures DecodeValue(data, off) == Failure(InvalidResponse(UnexpectedEnd))
  {
  }

  /** str 32, which no encoder here emits, is read with its big-endian
      length. */
  lemma Str32Accepted(b: Bytes, data: Bytes, off: nat)
    requires ValidUtf8(b) && off + 5 + |b| <= |data| && data[off] == 0xDB
    requires BE32(data[off + 1], data[off + 2], data[off + 3], data[off + 4]) == |b|
    requires data[off + 5..off + 5 + |b|] == b
    ensures DecodeValue(data, off) == Success((Str(b), off + 5 + |b|))
  {
  }

  /** The array 32 branch, once the marker, the count and the items are in
      place. */
  lemma Array32Reads(xs: seq<Value>, data: Bytes, off: nat)
    requires forall k :: 0 <= k < |xs| ==> Representable(xs[k]) && ClientDecodable(xs[k]) && Encodable(xs[k])
    requires off + 5 + |R.EncItems(xs)| <= |data| && data[off] == 0xDD
    requires BE32(data[off + 1], data[off + 2], data[off + 3], data[off + 4]) == |xs|
    requires data[off + 5..off + 5 + |R.EncItems(xs)|] == R.EncItems(xs)
    ensures DecodeValue(data, off) == Success((Arr(xs), off + 5 + |R.EncItems(xs)|))
  {
    ClientItemsEncoded(xs, data, off + 5, []);
    assert [] + xs == xs;
  }

  /** `starts`, `mids`, `keys` and `vals` describe `|keys|` map entries read
      one after another from `data`: entry `i` has a string key `keys[i]`
      starting at `starts[i]` and a value `vals[i]` starting at `mids[i]`, and
      the next entry starts where the value ends. */
  predicate EntryWalk(data: Bytes, starts: seq<nat>, mids: seq<nat>, keys: seq<Bytes>, vals: seq<Value>)
  {
    && |starts| == |keys| + 1 && |mids| == |keys| && |vals| == |keys|
    && starts[0] <= |data| && starts[|keys|] <= |data|
    && forall i :: 0 <= i < |keys| ==>
         && starts[i] <= |data| && mids[i] <= |data|
         && DecodeValue(data, starts[i]) == Success((Str(keys[i]), mids[i]))
         && DecodeValue(data, mids[i]) == Success((vals[i], starts[i + 1]))
  }

  /** The entries of a walk with its first entry dropped. */
  lemma EntryWalkTail(data: Bytes, starts: seq<nat>, mids: seq<nat>, keys: seq<Bytes>, vals: seq<Value>)
    requires EntryWalk(data, starts, mids, keys, vals) && |keys| > 0
    ensures EntryWalk(data, starts[1..], mids[1..], keys[1..], vals[1..])
  {
    forall i | 0 <= i < |keys| - 1
      ensures DecodeValue(data, starts[1..][i]) == Success((Str(keys[1..][i]), mids[1..][i]))
      ensures DecodeValue(data, mids[1..][i]) == Success((vals[1..][i], starts[1..][i + 1]))
    {
      assert starts[1..][i] == starts[i + 1] && starts[1..][i + 1] == starts[i + 2];
    }
  }

  /** Reading the entries of a walk assigns them in order into the
      accumulated dictionary. */
  lemma {:induction false} EntriesWalked(data: Bytes, starts: seq<nat>, mids: seq<nat>, keys: seq<Bytes>, vals: seq<Value>,
                                         acc: map<Bytes, Value>)
    requires EntryWalk(data, starts, mids, keys, vals)
    ensures DecodeEntries(data, starts[0], |keys|, acc) == Success((Stored(acc, keys, vals), starts[|keys|]))
    decreases |keys|
  {
    if |keys| > 0 {
      EntryWalkTail(data, starts, mids, keys, vals);
      EntriesWalked(data, starts[1..], mids[1..], keys[1..], vals[1..], acc[keys[0] := vals[0]]);
    }
  }

  /** Once `|keys|` string-keyed entries have been read, an entry whose key
      decodes to anything but a string fails the whole map, as soon as its
      value has been read too. */
  lemma {:induction false} EntriesRejectKey(data: Bytes, starts: seq<nat>, mids: seq<nat>, keys: seq<Bytes>, vals: seq<Value>,
                                            acc: map<Bytes, Value>, count: nat)
    requires EntryWalk(data, starts, mids, keys, vals) && |keys| < count
    requires DecodeValue(data, starts[|keys|]).Success? && !DecodeValue(data, starts[|keys|]).value.0.Str?
    requires DecodeValue(data, DecodeValue(data, starts[|keys|]).value.1).Success?
    ensures DecodeEntries(data, starts[0], count, acc) == Failure(InvalidResponse(MapKeyNotString))
    decreases |keys|
  {
    if |keys| > 0 {
      EntryWalkTail(data, starts, mids, keys, vals);
      EntriesRejectKey(data, starts[1..], mids[1..], keys[1..], vals[1..], acc[keys[0] := vals[0]], count - 1);
    }
  }

  /** A map header at `off` announcing `count` entries, in any of the three
      map formats, with the entries starting at `first`. */
  predicate MapHeader(data: Bytes, off: nat, count: nat, first: nat)
  {
    && off < |data|
    && (|| (0x80 <= data[off] <= 0x8F && data[off] - 0x80 == count && first == off + 1)
        || (data[off] == 0xDE && off + 2 < |data| && BE16(data[off + 1], data[off + 2]) == count && first == off + 3)
        || (data[off] == 0xDF && off + 4 < |data| && BE32(data[off + 1], data[off + 2], data[off + 3], data[off + 4]) == count
            && first == off + 5))
  }

  /** A map, in any format, reads as the dictionary its entries build in
      order. */
  lemma MapWalked(data: Bytes, off: nat, starts: seq<nat>, mids: seq<nat>, keys: seq<Bytes>, vals: seq<Value>)
    requires EntryWalk(data, starts, mids, keys, vals) && MapHeader(data, off, |keys|, starts[0])
    ensures DecodeValue(data, off) == Success((Map(Stored(map[], keys, vals)), starts[|keys|]))
  {
    EntriesWalked(data, starts, mids, keys, vals, map[]);
    if data[off] == 0xDE {
      assert DecodeValue(data, off) == DecodeMap16(data, off);
    } else if data[off] == 0xDF {
      assert DecodeValue(data, off) == DecodeMap32(data, off);
    } else {
      assert DecodeValue(data, off) == DecodeMap(data, off);
    }
  }

  /** A map that repeats a key keeps the later value, in all three map
      formats: when entries `i < j` share a key and no later entry has it, the
      decoded map holds entry `j`'s value, and it holds exactly the keys read. */
  lemma RepeatedKeyKeepsLast(data: Bytes, off: nat, starts: seq<nat>, mids: seq<nat>, keys: seq<Bytes>, vals: seq<Value>,
                             i: nat, j: nat)
    requires EntryWalk(data, starts, mids, keys, vals) && MapHeader(data, off, |keys|, starts[0])
    requires i < j < |keys| && keys[i] == keys[j] && keys[j] !in keys[j + 1..]
    ensures DecodeValue(data, off).Success? && DecodeValue(data, off).value.0.Map?
    ensures DecodeValue(data, off).value.0.entries.Keys == set k | k in keys
    ensures DecodeValue(data, off).value.0.entries[keys[i]] == vals[j]
  {
    MapWalked(data, off, starts, mids, keys, vals);
    StoredLastWins(map[], keys, vals);
  }

  /** A map key that is not a string is rejected, in every map format and at
      any entry, once the key and its value have been read. */
  lemma NonStringKeyRejected(data: Bytes, off: nat, count: nat, starts: seq<nat>, mids: seq<nat>, keys: seq<Bytes>,
                             vals: seq<Value>)
    requires EntryWalk(data, starts, mids, keys, vals) && MapHeader(data, off, count, starts[0]) && |keys| < count
    requires DecodeValue(data, starts[|keys|]).Success? && !DecodeValue(data, starts[|keys|]).value.0.Str?
    requires DecodeValue(data, DecodeValue(data, starts[|keys|]).value.1).Success?
    ensures DecodeValue(data, off) == Failure(InvalidResponse(MapKeyNotString))
  {
    EntriesRejectKey(data, starts, mids, keys, vals, map[], count);
  }
}
