/**
 Protocol Buffers wire sizes. Messages are encoded as the "Base 128 Varints" and
 "Length-Delimited Records" sections of the Protocol Buffers Encoding specification say; the size
 formulas of the report check equal the lengths of those encodings.
 */
module Wire {
  import opened Wrappers
  import opened Buckets
  import opened Encoding

  // ----- varints

  function Varint(n: nat): (s: seq<Byte>)
    ensures s != []
  {
    if n < 128 then [n] else [n % 128 + 128] + Varint(n / 128)
  }

  /** The value at the front of `s` and how many bytes it takes. */
  function ReadVarint(s: seq<Byte>): (r: Option<(nat, nat)>)
    ensures r.Some? ==> 1 <= r.value.1 <= |s|
  {
    if s == [] then None
    else if s[0] < 128 then Some((s[0], 1))
    else match ReadVarint(s[1..])
      case None => None
      case Some((high, used)) => Some((high * 128 + s[0] - 128, used + 1))
  }

  lemma {:induction false} VarintRoundTrip(n: nat, rest: seq<Byte>)
    ensures ReadVarint(Varint(n) + rest) == Some((n, |Varint(n)|))
  {
    if n >= 128 {
      VarintRoundTrip(n / 128, rest);
      assert (Varint(n) + rest)[1..] == Varint(n / 128) + rest;
    }
  }

  function VarintSize(n: nat): nat {
    var groups := (BitLength(n) + 6) / 7;
    if groups >= 1 then groups else 1
  }

  lemma BitLengthShift(n: nat)
    requires n >= 128
    ensures BitLength(n) == BitLength(n / 128) + 7
  {
    var quarter := n / 4;
    var sixteenth := quarter / 4;
    var last := sixteenth / 4;
    Quartered(n);
    Quartered(quarter);
    Quartered(sixteenth);
    assert n / 128 == last / 2;
  }

  lemma Quartered(n: nat)
    requires n >= 2
    ensures BitLength(n) == 2 + BitLength(n / 4)
  {
    assert n / 2 / 2 == n / 4;
  }

  /** `varint_size` is the length of the varint. */
  lemma {:induction false} VarintLength(n: nat)
    ensures |Varint(n)| == VarintSize(n)
  {
    if n >= 128 {
      VarintLength(n / 128);
      BitLengthShift(n);
      assert BitLength(n / 128) >= 1;
    } else {
      SmallBitLength(n);
    }
  }

  lemma SmallBitLength(n: nat)
    requires n < 128
    ensures BitLength(n) <= 7
  {
    assert BitLength(n / 2 / 2 / 2 / 2) <= 3;
    assert BitLength(n / 2 / 2) <= 2 + BitLength(n / 2 / 2 / 2 / 2);
  }

  // ----- messages

  datatype Field = Scalar(num: nat, value: nat) | Bytes(num: nat, payload: seq<Byte>)

  predicate FieldFits(f: Field) {
    1 <= f.num <= 15
  }

  function Tag(f: Field): Byte
    requires FieldFits(f)
  {
    f.num * 8 + if f.Scalar? then 0 else 2
  }

  function EncodeField(f: Field): seq<Byte>
    requires FieldFits(f)
  {
    [Tag(f)] + match f
               case Scalar(_, value) => Varint(value)
               case Bytes(_, payload) => Varint(|payload|) + payload
  }

  ghost predicate AllFit(fs: seq<Field>) {
    forall k | 0 <= k < |fs| :: FieldFits(fs[k])
  }

  function Encode(fs: seq<Field>): seq<Byte>
    requires AllFit(fs)
  {
    if fs == [] then [] else EncodeField(fs[0]) + Encode(fs[1..])
  }

  /** The field at the front of `s` and how many bytes it takes. */
  function ReadField(s: seq<Byte>): (r: Option<(Field, nat)>)
    ensures r.Some? ==> 1 <= r.value.1 <= |s|
  {
    if s == [] || s[0] < 8 || s[0] >= 128 then None
    else match ReadVarint(s[1..])
      case None => None
      case Some((n, used)) =>
        if s[0] % 8 == 0 then Some((Scalar(s[0] / 8, n), 1 + used))
        else if s[0] % 8 == 2 && 1 + used + n <= |s| then
          Some((Bytes(s[0] / 8, s[1 + used .. 1 + used + n]), 1 + used + n))
        else None
  }

  function Decode(s: seq<Byte>): Option<seq<Field>>
    decreases |s|
  {
    if s == [] then Some([])
    else match ReadField(s)
      case None => None
      case Some((f, used)) =>
        match Decode(s[used..])
        case None => None
        case Some(fs) => Some([f] + fs)
  }

  lemma FieldRoundTrip(f: Field, rest: seq<Byte>)
    requires FieldFits(f)
    ensures ReadField(EncodeField(f) + rest) == Some((f, |EncodeField(f)|))
  {
    match f
    case Scalar(num, value) => ScalarRoundTrip(num, value, rest);
    case Bytes(num, payload) => BytesRoundTrip(num, payload, rest);
  }

  lemma ScalarRoundTrip(num: nat, value: nat, rest: seq<Byte>)
    requires 1 <= num <= 15
    ensures var e := EncodeField(Scalar(num, value)); ReadField(e + rest) == Some((Scalar(num, value), |e|))
  {
    var s := EncodeField(Scalar(num, value)) + rest;
    VarintRoundTrip(value, rest);
    assert s[1..] == Varint(value) + rest;
    ReadsScalar(s, num, value, |Varint(value)|);
  }

  lemma BytesRoundTrip(num: nat, payload: seq<Byte>, rest: seq<Byte>)
    requires 1 <= num <= 15
    ensures var e := EncodeField(Bytes(num, payload)); ReadField(e + rest) == Some((Bytes(num, payload), |e|))
  {
    var s := EncodeField(Bytes(num, payload)) + rest;
    var used := |Varint(|payload|)|;
    VarintRoundTrip(|payload|, payload + rest);
    assert s[1..] == Varint(|payload|) + (payload + rest);
    assert s[1 + used .. 1 + used + |payload|] == payload;
    ReadsBytes(s, num, |payload|, used);
  }

  lemma ReadsScalar(s: seq<Byte>, num: nat, n: nat, used: nat)
    requires s != [] && 1 <= num <= 15 && s[0] == num * 8 && ReadVarint(s[1..]) == Some((n, used))
    ensures ReadField(s) == Some((Scalar(num, n), 1 + used))
  {
  }

  lemma ReadsBytes(s: seq<Byte>, num: nat, n: nat, used: nat)
    requires s != [] && 1 <= num <= 15 && s[0] == num * 8 + 2 && ReadVarint(s[1..]) == Some((n, used))
    requires 1 + used + n <= |s|
    ensures ReadField(s) == Some((Bytes(num, s[1 + used .. 1 + used + n]), 1 + used + n))
  {
  }

  lemma DecodeNext(f: Field, rest: seq<Byte>, fs: seq<Field>)
    requires FieldFits(f) && Decode(rest) == Some(fs)
    ensures Decode(EncodeField(f) + rest) == Some([f] + fs)
  {
    FieldRoundTrip(f, rest);
    assert (EncodeField(f) + rest)[|EncodeField(f)|..] == rest;
  }

  /** An encoded message decodes to the same fields. */
  lemma {:induction false} MessageRoundTrip(fs: seq<Field>)
    requires AllFit(fs)
    ensures Decode(Encode(fs)) == Some(fs)
  {
    if fs != [] {
      var f, rest := fs[0], fs[1..];
      assert AllFit(rest) && FieldFits(f);
      MessageRoundTrip(rest);
      DecodeNext(f, Encode(rest), rest);
      assert fs == [f] + rest;
    }
  }

  function BlobSize(length: nat): nat {
    1 + VarintSize(length) + length
  }

  function SizeOf(f: Field): nat {
    if f.Scalar? then 1 + VarintSize(f.value) else BlobSize(|f.payload|)
  }

  lemma FieldSize(f: Field)
    requires FieldFits(f)
    ensures |EncodeField(f)| == SizeOf(f)
  {
    VarintLength(if f.Scalar? then f.value else |f.payload|);
  }

  function Lengths(fs: seq<Field>): (r: seq<nat>)
    requires AllFit(fs)
    ensures |r| == |fs| && forall k | 0 <= k < |fs| :: r[k] == |EncodeField(fs[k])|
  {
    seq(|fs|, k requires 0 <= k < |fs| => |EncodeField(fs[k])|)
  }

  function Total(s: seq<nat>): nat {
    if s == [] then 0 else s[0] + Total(s[1..])
  }

  lemma {:induction false} EncodedLength(fs: seq<Field>)
    requires AllFit(fs)
    ensures |Encode(fs)| == Total(Lengths(fs))
  {
    if fs != [] {
      EncodedLength(fs[1..]);
      assert Lengths(fs)[1..] == Lengths(fs[1..]);
    }
  }

  lemma {:induction false} TotalConstant(s: seq<nat>, size: nat)
    requires forall k | 0 <= k < |s| :: s[k] == size
    ensures Total(s) == |s| * size
  {
    if s != [] { TotalConstant(s[1..], size); }
  }

  lemma UniformSize(fs: seq<Field>, size: nat)
    requires AllFit(fs) && forall k | 0 <= k < |fs| :: |EncodeField(fs[k])| == size
    ensures |Encode(fs)| == Repeated(|fs|, size)
  {
    EncodedLength(fs);
    TotalConstant(Lengths(fs), size);
  }

  // ----- the benchmark's requests and responses

  datatype Config = Config(keyspace: nat, runId: nat, batch: nat, valueBytes: nat, pointPut: bool)

  datatype Sizes = Sizes(getRequest: nat, putRequest: nat, setupPut: nat, getResponse: nat)

  function Repeated(count: nat, size: nat): nat { count * size }

  /** The context field: the keyspace and an epoch of two one-byte counters. */
  function ContextBytes(keyspace: nat): nat {
    BlobSize(1 + VarintSize(keyspace) + BlobSize(4))
  }

  /** The size calculation of the configuration check; `runId` is the length of the run name. */
  function WireSizes(c: Config): Sizes {
    var context := ContextBytes(c.keyspace);
    var keyField := BlobSize(c.runId + 17);
    var valueField := BlobSize(c.valueBytes);
    var setup := context + Repeated(c.batch, BlobSize(keyField + valueField));
    Sizes(context + Repeated(c.batch, keyField), if c.pointPut then context + keyField + valueField else setup, setup,
          Repeated(c.batch, BlobSize(2 + valueField)))
  }

  /** The request context: keyspace and an epoch with both counters one. */
  function Context(keyspace: nat): Field {
    Bytes(1, Encode([Scalar(1, keyspace), Bytes(2, Encode([Scalar(1, 1), Scalar(2, 1)]))]))
  }

  function KeyFields(keys: seq<seq<Byte>>): (r: seq<Field>)
    ensures |r| == |keys| && forall k | 0 <= k < |r| :: r[k] == Bytes(2, keys[k])
  {
    seq(|keys|, k requires 0 <= k < |keys| => Bytes(2, keys[k]))
  }

  function PairFields(keys: seq<seq<Byte>>, values: seq<seq<Byte>>): (r: seq<Field>)
    requires |keys| == |values|
    ensures |r| == |keys| && forall k | 0 <= k < |r| ::
            r[k] == Bytes(2, Encode([Bytes(1, keys[k]), Bytes(2, values[k])]))
  {
    seq(|keys|, k requires 0 <= k < |keys| => Bytes(2, Encode([Bytes(1, keys[k]), Bytes(2, values[k])])))
  }

  function FoundFields(values: seq<seq<Byte>>): (r: seq<Field>)
    ensures |r| == |values| && forall k | 0 <= k < |r| :: r[k] == Bytes(1, Encode([Scalar(1, 1), Bytes(2, values[k])]))
  {
    seq(|values|, k requires 0 <= k < |values| => Bytes(1, Encode([Scalar(1, 1), Bytes(2, values[k])])))
  }

  function BatchGet(keyspace: nat, keys: seq<seq<Byte>>): seq<Byte> {
    Encode([Context(keyspace)] + KeyFields(keys))
  }

  function PointGet(keyspace: nat, key: seq<Byte>): seq<Byte> {
    Encode([Context(keyspace), Bytes(2, key)])
  }

  function BatchPut(keyspace: nat, keys: seq<seq<Byte>>, values: seq<seq<Byte>>): seq<Byte>
    requires |keys| == |values|
  {
    Encode([Context(keyspace)] + PairFields(keys, values))
  }

  function PointPut(keyspace: nat, key: seq<Byte>, value: seq<Byte>): seq<Byte> {
    Encode([Context(keyspace), Bytes(2, key), Bytes(3, value)])
  }

  /** One optional value, present. */
  function PointReply(value: seq<Byte>): seq<Byte> {
    Encode([Bytes(1, Encode([Scalar(1, 1), Bytes(2, value)]))])
  }

  function BatchReply(values: seq<seq<Byte>>): seq<Byte> {
    Encode(FoundFields(values))
  }

  lemma PairSize(a: Field, b: Field)
    requires FieldFits(a) && FieldFits(b)
    ensures |Encode([a, b])| == |EncodeField(a)| + |EncodeField(b)|
  {
    assert [a, b][1..] == [b] && [b][1..] == [];
    assert Encode([b]) == EncodeField(b) + Encode([]);
  }

  lemma ContextSize(keyspace: nat)
    ensures |EncodeField(Context(keyspace))| == BlobSize(1 + VarintSize(keyspace) + BlobSize(4))
  {
    FieldSize(Scalar(1, 1));
    FieldSize(Scalar(2, 1));
    PairSize(Scalar(1, 1), Scalar(2, 1));
    var epoch := Bytes(2, Encode([Scalar(1, 1), Scalar(2, 1)]));
    FieldSize(Scalar(1, keyspace));
    FieldSize(epoch);
    PairSize(Scalar(1, keyspace), epoch);
    FieldSize(Context(keyspace));
  }

  /** The declared sizes are the lengths of the encoded messages, whatever the keys and values. */
  lemma SizesAreLengths(c: Config, keys: seq<seq<Byte>>, values: seq<seq<Byte>>)
    requires |keys| == |values| == c.batch
    requires forall k | 0 <= k < c.batch :: |keys[k]| == c.runId + 17 && |values[k]| == c.valueBytes
    ensures |BatchGet(c.keyspace, keys)| == WireSizes(c).getRequest
    ensures |BatchPut(c.keyspace, keys, values)| == WireSizes(c).setupPut
    ensures c.pointPut && c.batch == 1 ==> |PointPut(c.keyspace, keys[0], values[0])| == WireSizes(c).putRequest
    ensures !c.pointPut ==> |BatchPut(c.keyspace, keys, values)| == WireSizes(c).putRequest
    ensures |BatchReply(values)| == WireSizes(c).getResponse
  {
    GetSize(c, keys);
    PutSize(c, keys, values);
    ReplySize(c, values);
    if c.pointPut && c.batch == 1 {
      PointPutSize(c, keys[0], values[0]);
    }
  }

  lemma PointPutSize(c: Config, key: seq<Byte>, value: seq<Byte>)
    requires c.pointPut && |key| == c.runId + 17 && |value| == c.valueBytes
    ensures |PointPut(c.keyspace, key, value)| == WireSizes(c).putRequest
  {
    FieldSize(Bytes(2, key));
    FieldSize(Bytes(3, value));
    PairSize(Bytes(2, key), Bytes(3, value));
    Prefixed(c.keyspace, [Bytes(2, key), Bytes(3, value)]);
    assert [Context(c.keyspace), Bytes(2, key), Bytes(3, value)]
           == [Context(c.keyspace)] + [Bytes(2, key), Bytes(3, value)];
  }

  /** The context field in front of other fields. */
  lemma Prefixed(keyspace: nat, fs: seq<Field>)
    requires AllFit(fs)
    ensures |Encode([Context(keyspace)] + fs)| == ContextBytes(keyspace) + |Encode(fs)|
  {
    ContextSize(keyspace);
    assert ([Context(keyspace)] + fs)[1..] == fs;
  }

  lemma GetSize(c: Config, keys: seq<seq<Byte>>)
    requires |keys| == c.batch && forall k | 0 <= k < c.batch :: |keys[k]| == c.runId + 17
    ensures |BatchGet(c.keyspace, keys)| == WireSizes(c).getRequest
  {
    KeyFieldsSize(keys, c.runId + 17);
    Prefixed(c.keyspace, KeyFields(keys));
  }

  lemma KeyFieldsSize(keys: seq<seq<Byte>>, length: nat)
    requires forall k | 0 <= k < |keys| :: |keys[k]| == length
    ensures |Encode(KeyFields(keys))| == Repeated(|keys|, BlobSize(length))
  {
    var fs := KeyFields(keys);
    forall k | 0 <= k < |fs| ensures |EncodeField(fs[k])| == BlobSize(length) { FieldSize(fs[k]); }
    UniformSize(fs, BlobSize(length));
  }

  lemma PutSize(c: Config, keys: seq<seq<Byte>>, values: seq<seq<Byte>>)
    requires |keys| == |values| == c.batch
    requires forall k | 0 <= k < c.batch :: |keys[k]| == c.runId + 17 && |values[k]| == c.valueBytes
    ensures |BatchPut(c.keyspace, keys, values)| == WireSizes(c).setupPut
  {
    BatchPutSize(c.keyspace, keys, values, c.runId + 17, c.valueBytes);
  }

  lemma BatchPutSize(keyspace: nat, keys: seq<seq<Byte>>, values: seq<seq<Byte>>, keyLength: nat, valueLength: nat)
    requires |keys| == |values| && forall k | 0 <= k < |keys| :: |keys[k]| == keyLength && |values[k]| == valueLength
    ensures |BatchPut(keyspace, keys, values)|
            == ContextBytes(keyspace) + Repeated(|keys|, BlobSize(BlobSize(keyLength) + BlobSize(valueLength)))
  {
    PairFieldsSize(keys, values, keyLength, valueLength);
    Prefixed(keyspace, PairFields(keys, values));
  }

  lemma PairFieldsSize(keys: seq<seq<Byte>>, values: seq<seq<Byte>>, keyLength: nat, valueLength: nat)
    requires |keys| == |values| && forall k | 0 <= k < |keys| :: |keys[k]| == keyLength && |values[k]| == valueLength
    ensures |Encode(PairFields(keys, values))|
            == Repeated(|keys|, BlobSize(BlobSize(keyLength) + BlobSize(valueLength)))
  {
    var fs := PairFields(keys, values);
    var size := BlobSize(BlobSize(keyLength) + BlobSize(valueLength));
    forall k | 0 <= k < |fs| ensures |EncodeField(fs[k])| == size {
      NestedSize(2, Bytes(1, keys[k]), Bytes(2, values[k]));
    }
    UniformSize(fs, size);
  }

  /** A nested message of two fields. */
  lemma NestedSize(num: nat, a: Field, b: Field)
    requires 1 <= num <= 15 && FieldFits(a) && FieldFits(b)
    ensures |EncodeField(Bytes(num, Encode([a, b])))| == BlobSize(SizeOf(a) + SizeOf(b))
  {
    FieldSize(a);
    FieldSize(b);
    PairSize(a, b);
    FieldSize(Bytes(num, Encode([a, b])));
  }

  lemma ReplySize(c: Config, values: seq<seq<Byte>>)
    requires |values| == c.batch && forall k | 0 <= k < c.batch :: |values[k]| == c.valueBytes
    ensures |BatchReply(values)| == WireSizes(c).getResponse
  {
    var fs := FoundFields(values);
    var size := BlobSize(2 + BlobSize(c.valueBytes));
    assert SizeOf(Scalar(1, 1)) == 2;
    forall k | 0 <= k < |fs| ensures |EncodeField(fs[k])| == size { NestedSize(1, Scalar(1, 1), Bytes(2, values[k])); }
    UniformSize(fs, size);
  }

  /** A point GET is byte for byte a one-element batch GET, and so is its response. */
  lemma PointGetIsBatch(keyspace: nat, key: seq<Byte>, value: seq<Byte>)
    ensures PointGet(keyspace, key) == BatchGet(keyspace, [key])
    ensures PointReply(value) == BatchReply([value])
  {
    assert [Context(keyspace)] + KeyFields([key]) == [Context(keyspace), Bytes(2, key)];
    assert FoundFields([value]) == [Bytes(1, Encode([Scalar(1, 1), Bytes(2, value)]))];
  }
}
