/**
 * What the benchmark's BSON encoder promises its decoder: the frame header
 * states the document's own length, and decoding an encoded dict gives the
 * dict back (keys in order, lists as lists) together with the end offset.
 */
module BsonRoundTrip {
  import opened Wrappers
  import opened Bytes
  import opened BsonCodec
  import DecimalText

  /** The int32 at the front of an encoded document is its total length; its last byte is NUL. */
  lemma FrameHeader(fs: seq<Field>)
    requires Packable(fs)
    ensures |EncodeDocument(fs)| >= 5
    ensures Int32LE(EncodeDocument(fs)[..4]) == |EncodeDocument(fs)|
    ensures EncodeDocument(fs)[|EncodeDocument(fs)| - 1] == 0
  {
    var e := EncodeFields(fs);
    assert EncodeDocument(fs)[..4] == LE(|e| + 5, 4);
    Int32RoundTrip(|e| + 5);
  }

  /** `bson_encode({"a": 1})` is `0C 00 00 00 10 61 00 01 00 00 00 00`. */
  lemma EncodeSmallDict()
    ensures EncodeDocument([Field([0x61], Int(1))])
         == [0x0C, 0, 0, 0, 0x10, 0x61, 0, 1, 0, 0, 0, 0]
  {
    var f := Field([0x61], Int(1));
    assert EncodeFields([f]) == EncodeElement([0x61], Int(1)) + EncodeFields([]);
    assert Payload(Int(1)) == LE(1, 4) == [1, 0, 0, 0];
    assert LE(12, 4) == [12, 0, 0, 0];
  }

  /** Decoding the bytes of one encoded dict, found anywhere in a buffer. */
  lemma {:induction false} DocumentRoundTrip(data: seq<byte>, offset: nat, fs: seq<Field>)
    requires Packable(fs) && Decodable(fs)
    requires offset + |EncodeDocument(fs)| <= |data|
    requires data[offset..offset + |EncodeDocument(fs)|] == EncodeDocument(fs)
    ensures DecodeDocument(data, offset) == Ok((fs, offset + |EncodeDocument(fs)|))
    decreases FieldsSize(fs), 6
  {
    DocumentReadable(fs);
    DocumentWindow(data, offset, fs);
    DocumentFromElements(data, offset, offset + |EncodeDocument(fs)|, fs);
  }

  /** The fields of an encodable, decodable dict are readable from an empty dict. */
  lemma DocumentReadable(fs: seq<Field>)
    requires Packable(fs) && Decodable(fs)
    ensures Readable(fs, []) && |EncodeFields(fs)| + 5 <= INT32_MAX
  {
    Decodable1(fs);
    ReadableFrom(fs, []);
  }

  /** A document whose header holds its length and whose readable elements follow decodes to them. */
  lemma {:induction false} DocumentFromElements(data: seq<byte>, offset: nat, end: int, fs: seq<Field>)
    requires Readable(fs, []) && offset + 4 <= |data| && end <= |data|
    requires Int32LE(data[offset..offset + 4]) == end - offset
    requires offset + 4 + |EncodeFields(fs)| == end - 1
    requires data[offset + 4..end - 1] == EncodeFields(fs)
    ensures DecodeDocument(data, offset) == Ok((fs, end))
    decreases FieldsSize(fs), 5
  {
    ElementsRoundTrip(data, offset, offset + 4, end, [], fs);
    assert [] + fs == fs;
    DocumentStep(data, offset, end, fs);
  }

  /** The document decoder returns what its element loop returns, with the declared end. */
  lemma DocumentStep(data: seq<byte>, offset: nat, end: int, fs: seq<Field>)
    requires offset + 4 <= |data| && Int32LE(data[offset..offset + 4]) == end - offset
    requires DecodeElements(data, offset, offset + 4, end, []) == Ok(fs)
    ensures DecodeDocument(data, offset) == Ok((fs, end))
  {
  }

  /** An encoded document in a buffer: its header reads back as its length, its elements follow. */
  lemma DocumentWindow(data: seq<byte>, offset: nat, fs: seq<Field>)
    requires |EncodeFields(fs)| + 5 <= INT32_MAX
    requires offset + |EncodeDocument(fs)| <= |data|
    requires data[offset..offset + |EncodeDocument(fs)|] == EncodeDocument(fs)
    ensures Int32LE(data[offset..offset + 4]) == |EncodeDocument(fs)|
    ensures offset + 4 + |EncodeFields(fs)| == offset + |EncodeDocument(fs)| - 1
    ensures data[offset + 4..offset + |EncodeDocument(fs)| - 1] == EncodeFields(fs)
  {
    var e := EncodeFields(fs);
    var end := offset + |EncodeDocument(fs)|;
    assert EncodeDocument(fs) == LE(|e| + 5, 4) + (e + [0]);
    SplitWindow(data, offset, end, LE(|e| + 5, 4), e + [0]);
    SplitWindow(data, offset + 4, end, e, [0]);
    Int32RoundTrip(|e| + 5);
  }

  /** Unpacks the three conjuncts of `Decodable` for the element loop. */
  lemma Decodable1(fs: seq<Field>)
    requires Decodable(fs)
    ensures forall i :: 0 <= i < |fs| ==> 0 !in fs[i].key && DecodableValue(fs[i].value)
    ensures forall i, j :: 0 <= i < j < |fs| ==> fs[i].key != fs[j].key
  {
  }

  /**
   * The fields the decoding loop still has to read: each encodable and
   * decodable, its key free of NUL and new to the fields read before it.
   */
  predicate Readable(fs: seq<Field>, acc: seq<Field>)
  {
    |fs| == 0 ||
    (PackableValue(fs[0].value) && DecodableValue(fs[0].value) && 0 !in fs[0].key &&
     fs[0].key !in Keys(acc) && Readable(fs[1..], acc + [fs[0]]))
  }

  /** Fields that are encodable and decodable, with keys distinct and new to `acc`, are readable. */
  lemma {:induction false} ReadableFrom(fs: seq<Field>, acc: seq<Field>)
    requires forall i :: 0 <= i < |fs| ==> PackableValue(fs[i].value)
    requires forall i :: 0 <= i < |fs| ==> 0 !in fs[i].key && DecodableValue(fs[i].value)
    requires forall i, j :: 0 <= i < j < |fs| ==> fs[i].key != fs[j].key
    requires forall i, j :: 0 <= i < |fs| && 0 <= j < |acc| ==> fs[i].key != acc[j].key
    ensures Readable(fs, acc)
  {
    if |fs| > 0 {
      KeyFresh(acc, fs[0]);
      FreshKeysAfterPut(acc, fs);
      ReadableFrom(fs[1..], acc + [fs[0]]);
    }
  }

  /** The decoding loop reads back an encoded element list, appending to what it already holds. */
  lemma {:induction false} ElementsRoundTrip(data: seq<byte>, start: nat, pos: nat, end: int,
                                             acc: seq<Field>, fs: seq<Field>)
    requires start + 4 <= |data| && start < pos
    requires Readable(fs, acc)
    requires pos + |EncodeFields(fs)| == end - 1 && end <= |data|
    requires data[pos..end - 1] == EncodeFields(fs)
    ensures DecodeElements(data, start, pos, end, acc) == Ok(acc + fs)
    decreases FieldsSize(fs), 4
  {
    if |fs| == 0 {
      assert acc + fs == acc;
    } else {
      var f := fs[0];
      var next := pos + |EncodeElement(f.key, f.value)|;
      FirstWindow(data, pos, end, fs);
      FirstElement(data, start, pos, end, acc, f);
      ElementsRoundTrip(data, start, next, end, acc + [f], fs[1..]);
      ConsAppend(acc, fs);
    }
  }

  /** The first encoded element and the encoding of the rest each fill their own window. */
  lemma FirstWindow(data: seq<byte>, pos: nat, end: int, fs: seq<Field>)
    requires |fs| > 0
    requires pos + |EncodeFields(fs)| == end - 1 && end <= |data|
    requires data[pos..end - 1] == EncodeFields(fs)
    ensures pos + |EncodeElement(fs[0].key, fs[0].value)| + |EncodeFields(fs[1..])| == end - 1
    ensures data[pos..pos + |EncodeElement(fs[0].key, fs[0].value)|] == EncodeElement(fs[0].key, fs[0].value)
    ensures data[pos + |EncodeElement(fs[0].key, fs[0].value)|..end - 1] == EncodeFields(fs[1..])
  {
    var el := EncodeElement(fs[0].key, fs[0].value);
    var rest := EncodeFields(fs[1..]);
    assert EncodeFields(fs) == el + rest;
    SplitWindow(data, pos, end - 1, el, rest);
  }

  lemma ConsAppend(acc: seq<Field>, fs: seq<Field>)
    requires |fs| > 0
    ensures acc + [fs[0]] + fs[1..] == acc + fs
  {
    assert fs == [fs[0]] + fs[1..];
  }

  /** The loop's first pass over an encoded element reads back exactly that field. */
  lemma FirstElement(data: seq<byte>, start: nat, pos: nat, end: int, acc: seq<Field>, f: Field)
    requires start + 4 <= |data| && start < pos
    requires PackableValue(f.value) && DecodableValue(f.value) && 0 !in f.key && f.key !in Keys(acc)
    requires pos + |EncodeElement(f.key, f.value)| < end <= |data|
    requires data[pos..pos + |EncodeElement(f.key, f.value)|] == EncodeElement(f.key, f.value)
    ensures DecodeElements(data, start, pos, end, acc)
         == DecodeElements(data, start, pos + |EncodeElement(f.key, f.value)|, end, acc + [f])
    decreases Size(f.value), 3
  {
    var keyEnd := pos + 1 + |f.key|;
    ElementWindow(data, pos, f);
    ReadElement(data, start, pos, end, acc, f, keyEnd, keyEnd + 1 + |Payload(f.value)|);
  }

  /** The loop reads a tag, a key and the payload written for the field, and appends the field. */
  lemma ReadElement(data: seq<byte>, start: nat, pos: nat, end: int, acc: seq<Field>, f: Field,
                    keyEnd: nat, next: nat)
    requires start + 4 <= |data| && start < pos && pos < keyEnd < next < end <= |data|
    requires PackableValue(f.value) && DecodableValue(f.value) && f.key !in Keys(acc)
    requires data[pos] == Tag(f.value)
    requires FindNul(data, pos + 1) == Some(keyEnd) && data[pos + 1..keyEnd] == f.key
    requires next == keyEnd + 1 + |Payload(f.value)| && data[keyEnd + 1..next] == Payload(f.value)
    ensures DecodeElements(data, start, pos, end, acc) == DecodeElements(data, start, next, end, acc + [f])
    decreases Size(f.value), 2
  {
    ValueRoundTrip(data, start, keyEnd + 1, f.value);
    ElementsStep(data, start, pos, end, acc, keyEnd, f.value, next);
  }

  /** A key no field of `acc` carries is not among its keys. */
  lemma KeyFresh(acc: seq<Field>, f: Field)
    requires forall j :: 0 <= j < |acc| ==> acc[j].key != f.key
    ensures f.key !in Keys(acc)
  {
    forall j | 0 <= j < |Keys(acc)|
      ensures Keys(acc)[j] != f.key
    {
    }
  }

  /** Splits a window holding `x + y` into a window holding `x` and one holding `y`. */
  lemma SplitWindow(data: seq<byte>, a: nat, b: nat, x: seq<byte>, y: seq<byte>)
    requires a <= b <= |data| && data[a..b] == x + y
    ensures data[a..a + |x|] == x && data[a + |x|..b] == y
  {
    assert (x + y)[0..|x|] == x;
    assert (x + y)[|x|..|x| + |y|] == y;
    SliceOfSlice(data, a, b, x + y, 0, |x|);
    SliceOfSlice(data, a, b, x + y, |x|, |x| + |y|);
  }

  /** Where one encoded element sits in the buffer: tag byte, NUL-terminated key, payload. */
  lemma ElementWindow(data: seq<byte>, pos: nat, f: Field)
    requires 0 !in f.key
    requires pos + |EncodeElement(f.key, f.value)| <= |data|
    requires data[pos..pos + |EncodeElement(f.key, f.value)|] == EncodeElement(f.key, f.value)
    ensures |EncodeElement(f.key, f.value)| == 2 + |f.key| + |Payload(f.value)|
    ensures data[pos] == Tag(f.value)
    ensures FindNul(data, pos + 1) == Some(pos + 1 + |f.key|)
    ensures data[pos + 1..pos + 1 + |f.key|] == f.key
    ensures data[pos + 2 + |f.key|..pos + 2 + |f.key| + |Payload(f.value)|] == Payload(f.value)
  {
    ElementShape(data, pos, EncodeElement(f.key, f.value), Tag(f.value), f.key, Payload(f.value));
  }

  /** An element window `tag, key, NUL, payload`, over any bytes. */
  lemma ElementShape(data: seq<byte>, pos: nat, el: seq<byte>, tag: byte, key: seq<byte>, payload: seq<byte>)
    requires 0 !in key && el == [tag] + key + [0] + payload
    requires pos + |el| <= |data| && data[pos..pos + |el|] == el
    ensures |el| == 2 + |key| + |payload|
    ensures data[pos] == tag
    ensures FindNul(data, pos + 1) == Some(pos + 1 + |key|)
    ensures data[pos + 1..pos + 1 + |key|] == key
    ensures data[pos + 2 + |key|..pos + 2 + |key| + |payload|] == payload
  {
    KeyWindow(data, pos, el, tag, key, payload);
    assert el[2 + |key|..] == payload;
    PayloadWindow(data, pos, el, 2 + |key|, payload);
  }

  /** The tag byte and the NUL-terminated key at the front of an element window. */
  lemma KeyWindow(data: seq<byte>, pos: nat, el: seq<byte>, tag: byte, key: seq<byte>, payload: seq<byte>)
    requires 0 !in key && el == [tag] + key + [0] + payload
    requires pos + |el| <= |data| && data[pos..pos + |el|] == el
    ensures data[pos] == tag
    ensures FindNul(data, pos + 1) == Some(pos + 1 + |key|)
    ensures data[pos + 1..pos + 1 + |key|] == key
  {
    var keyEnd := pos + 1 + |key|;
    assert data[pos] == el[0];
    assert el[1..1 + |key|] == key;
    SliceOfSlice(data, pos, pos + |el|, el, 1, 1 + |key|);
    assert data[keyEnd] == el[1 + |key|] == 0;
    forall i | pos + 1 <= i < keyEnd
      ensures data[i] != 0
    {
      assert data[i] == key[i - pos - 1];
    }
    FindNulAt(data, pos + 1, keyEnd);
  }

  /** `FindNul` stops at the first NUL. */
  lemma {:induction false} FindNulAt(data: seq<byte>, from: nat, at: nat)
    requires from <= at < |data| && data[at] == 0
    requires forall i :: from <= i < at ==> data[i] != 0
    ensures FindNul(data, from) == Some(at)
    decreases at - from
  {
    if from < at {
      FindNulAt(data, from + 1, at);
    }
  }

  /** The bytes at the tail of an element window. */
  lemma PayloadWindow(data: seq<byte>, pos: nat, el: seq<byte>, k: nat, payload: seq<byte>)
    requires k + |payload| == |el| && el[k..] == payload
    requires pos + |el| <= |data| && data[pos..pos + |el|] == el
    ensures data[pos + k..pos + k + |payload|] == payload
  {
    SliceOfSlice(data, pos, pos + |el|, el, k, |el|);
  }

  /** After appending `fs[0]`, the remaining keys are still fresh. */
  lemma FreshKeysAfterPut(acc: seq<Field>, fs: seq<Field>)
    requires |fs| > 0
    requires forall i, j :: 0 <= i < j < |fs| ==> fs[i].key != fs[j].key
    requires forall i, j :: 0 <= i < |fs| && 0 <= j < |acc| ==> fs[i].key != acc[j].key
    ensures forall i, j :: 0 <= i < |fs[1..]| && 0 <= j < |acc + [fs[0]]| ==> fs[1..][i].key != (acc + [fs[0]])[j].key
  {
    forall i, j | 0 <= i < |fs[1..]| && 0 <= j < |acc + [fs[0]]|
      ensures fs[1..][i].key != (acc + [fs[0]])[j].key
    {
      assert fs[1..][i] == fs[i + 1];
      if j == |acc| {
        assert (acc + [fs[0]])[j] == fs[0];
      } else {
        assert (acc + [fs[0]])[j] == acc[j];
      }
    }
  }

  /** Each tag's branch of the decoder reads back the payload written for it. */
  lemma {:induction false} ValueRoundTrip(data: seq<byte>, start: nat, p: nat, v: Value)
    requires start + 4 <= |data| && start < p
    requires PackableValue(v) && DecodableValue(v)
    requires p + |Payload(v)| <= |data| && data[p..p + |Payload(v)|] == Payload(v)
    ensures DecodeValue(data, start, Tag(v), p) == Ok((v, p + |Payload(v)|))
    decreases Size(v), 1
  {
    if v.Int? {
      IntRoundTrip(data, start, p, v);
    } else if v.Str? {
      StrRoundTrip(data, start, p, v);
    } else if v.Binary? {
      BinaryRoundTrip(data, start, p, v);
    } else if v.Doc? {
      DocValueRoundTrip(data, start, p, v);
    } else if v.Arr? {
      ArrValueRoundTrip(data, start, p, v);
    } else {
      ScalarRoundTrip(data, start, p, v);
    }
  }

  /** Null, a bool, a double's 8 bytes and a 12-byte ObjectId read back as written. */
  lemma ScalarRoundTrip(data: seq<byte>, start: nat, p: nat, v: Value)
    requires start + 4 <= |data| && start < p
    requires v.Null? || v.Bool? || v.Double? || v.Oid?
    requires DecodableValue(v)
    requires p + |Payload(v)| <= |data| && data[p..p + |Payload(v)|] == Payload(v)
    ensures DecodeValue(data, start, Tag(v), p) == Ok((v, p + |Payload(v)|))
  {
    match v
    case Null =>
    case Bool(b) =>
      assert data[p] == Payload(v)[0];
    case Double(bits) =>
      assert data[p..p + 8] == bits;
    case Oid(b) =>
      assert data[p..p + 12] == b;
  }

  /** An embedded dict reads back through the document decoder. */
  lemma {:induction false} DocValueRoundTrip(data: seq<byte>, start: nat, p: nat, v: Value)
    requires start + 4 <= |data| && start < p
    requires v.Doc? && PackableValue(v) && DecodableValue(v)
    requires p + |Payload(v)| <= |data| && data[p..p + |Payload(v)|] == Payload(v)
    ensures DecodeValue(data, start, Tag(v), p) == Ok((v, p + |Payload(v)|))
    decreases Size(v), 0
  {
    var fs := v.fields;
    DocPayloadFacts(v);
    SameWindow(data, p, Payload(v), EncodeDocument(fs));
    DocumentRoundTrip(data, p, fs);
    DocStep(data, start, p, v, p + |Payload(v)|);
  }

  /** The dict branch of the decoder, given that the document decoder reads back the fields. */
  lemma DocStep(data: seq<byte>, start: nat, p: nat, v: Value, q: nat)
    requires start + 4 <= |data| && start < p && p <= q && v.Doc?
    requires DecodeDocument(data, p) == Ok((v.fields, q))
    requires Tag(v) == BSON_DOCUMENT
    ensures DecodeValue(data, start, Tag(v), p) == Ok((v, q))
  {
    ContainerStep(data, start, p, BSON_DOCUMENT, v.fields, q);
  }

  /** An embedded dict is written as the document of its own fields. */
  lemma DocPayloadFacts(v: Value)
    requires v.Doc? && PackableValue(v) && DecodableValue(v)
    ensures Packable(v.fields) && Decodable(v.fields)
    ensures Payload(v) == EncodeDocument(v.fields)
    ensures FieldsSize(v.fields) < Size(v) && Tag(v) == BSON_DOCUMENT && Doc(v.fields) == v
  {
    assert Payload(v) == EncodeDocument(v.fields);
  }

  /** An embedded list reads back through the document decoder, its index keys dropped. */
  lemma {:induction false} ArrValueRoundTrip(data: seq<byte>, start: nat, p: nat, v: Value)
    requires start + 4 <= |data| && start < p
    requires v.Arr? && PackableValue(v) && DecodableValue(v)
    requires p + |Payload(v)| <= |data| && data[p..p + |Payload(v)|] == Payload(v)
    ensures DecodeValue(data, start, Tag(v), p) == Ok((v, p + |Payload(v)|))
    decreases Size(v), 0
  {
    var fs := ArrayFields(v.items);
    ArrPayloadFacts(v);
    SameWindow(data, p, Payload(v), EncodeDocument(fs));
    ArrFieldsRoundTrip(data, start, p, fs, p + |Payload(v)|);
  }

  /** The list branch of the decoder reads the index-keyed fields back as a list of their values. */
  lemma {:induction false} ArrFieldsRoundTrip(data: seq<byte>, start: nat, p: nat, fs: seq<Field>, q: nat)
    requires start + 4 <= |data| && start < p
    requires Packable(fs) && Decodable(fs)
    requires q == p + |EncodeDocument(fs)| && q <= |data| && data[p..q] == EncodeDocument(fs)
    ensures DecodeValue(data, start, BSON_ARRAY, p) == Ok((Arr(ValuesOf(fs)), q))
    decreases FieldsSize(fs), 7
  {
    DocumentRoundTrip(data, p, fs);
    ContainerStep(data, start, p, BSON_ARRAY, fs, q);
  }

  /** A list is written as the document of its index-keyed fields, and reads back as their values. */
  lemma ArrPayloadFacts(v: Value)
    requires v.Arr? && PackableValue(v) && DecodableValue(v)
    ensures Packable(ArrayFields(v.items)) && Decodable(ArrayFields(v.items))
    ensures Payload(v) == EncodeDocument(ArrayFields(v.items))
    ensures FieldsSize(ArrayFields(v.items)) < Size(v) && Tag(v) == BSON_ARRAY
    ensures Arr(ValuesOf(ArrayFields(v.items))) == v
  {
    var fs := ArrayFields(v.items);
    ArrayFieldsSize(v.items);
    ArrayFieldsDecodable(v.items);
    assert Payload(v) == EncodeDocument(fs);
    assert ValuesOf(fs) == v.items;
  }

  /** The document and list branch of the decoder, given what the document decoder returns. */
  lemma ContainerStep(data: seq<byte>, start: nat, p: nat, tag: byte, fs: seq<Field>, q: nat)
    requires start + 4 <= |data| && start < p && p <= q
    requires tag == BSON_DOCUMENT || tag == BSON_ARRAY
    requires DecodeDocument(data, p) == Ok((fs, q))
    ensures DecodeValue(data, start, tag, p) == Ok((if tag == BSON_DOCUMENT then Doc(fs) else Arr(ValuesOf(fs)), q))
  {
  }

  /** An int32 or int64 payload reads back as the same integer. */
  lemma IntRoundTrip(data: seq<byte>, start: nat, p: nat, v: Value)
    requires start + 4 <= |data| && start < p
    requires v.Int? && InInt64(v.i)
    requires p + |Payload(v)| <= |data| && data[p..p + |Payload(v)|] == Payload(v)
    ensures DecodeValue(data, start, Tag(v), p) == Ok((v, p + |Payload(v)|))
  {
    if InInt32(v.i) {
      Int32RoundTrip(v.i);
    } else {
      Int64RoundTrip(v.i);
    }
  }

  /** A string payload (length including the NUL, bytes, NUL) reads back as the same bytes. */
  lemma StrRoundTrip(data: seq<byte>, start: nat, p: nat, v: Value)
    requires start + 4 <= |data| && start < p
    requires v.Str? && |v.utf8| + 1 <= INT32_MAX
    requires p + |Payload(v)| <= |data| && data[p..p + |Payload(v)|] == Payload(v)
    ensures DecodeValue(data, start, Tag(v), p) == Ok((v, p + |Payload(v)|))
  {
    StrPayloadFound(data, p, v);
    StrStep(data, start, p, |v.utf8| + 1, v.utf8);
  }

  /** Where the decoder finds the length and the bytes of a string payload. */
  lemma StrPayloadFound(data: seq<byte>, p: nat, v: Value)
    requires v.Str? && |v.utf8| + 1 <= INT32_MAX
    requires p + |Payload(v)| <= |data| && data[p..p + |Payload(v)|] == Payload(v)
    ensures Tag(v) == BSON_STRING && |Payload(v)| == 4 + (|v.utf8| + 1) && p + 4 <= |data|
    ensures Int32LE(data[p..p + 4]) == |v.utf8| + 1
    ensures PySlice(data, p + 4, p + 4 + (|v.utf8| + 1) - 1) == v.utf8
  {
    var s := v.utf8;
    PrefixedPayload(v, LE(|s| + 1, 4), [], s, [0]);
    LengthPrefixed(data, p, Payload(v), 4, s);
    Int32RoundTrip(|s| + 1);
  }

  /** The string branch of the decoder, given the length and the bytes it finds. */
  lemma StrStep(data: seq<byte>, start: nat, p: nat, n: int, s: seq<byte>)
    requires start + 4 <= |data| && start < p && p + 4 <= |data|
    requires n >= 0 && Int32LE(data[p..p + 4]) == n && PySlice(data, p + 4, p + 4 + n - 1) == s
    ensures DecodeValue(data, start, BSON_STRING, p) == Ok((Str(s), p + 4 + n))
  {
  }

  /** A binary payload (length, subtype 0, bytes) reads back as the same bytes. */
  lemma BinaryRoundTrip(data: seq<byte>, start: nat, p: nat, v: Value)
    requires start + 4 <= |data| && start < p
    requires v.Binary? && |v.bytes| <= INT32_MAX
    requires p + |Payload(v)| <= |data| && data[p..p + |Payload(v)|] == Payload(v)
    ensures DecodeValue(data, start, Tag(v), p) == Ok((v, p + |Payload(v)|))
  {
    BinaryPayloadFound(data, p, v);
    BinaryStep(data, start, p, |v.bytes|, v.bytes);
  }

  /** Where the decoder finds the length and the bytes of a binary payload. */
  lemma BinaryPayloadFound(data: seq<byte>, p: nat, v: Value)
    requires v.Binary? && |v.bytes| <= INT32_MAX
    requires p + |Payload(v)| <= |data| && data[p..p + |Payload(v)|] == Payload(v)
    ensures Tag(v) == BSON_BINARY && |Payload(v)| == 5 + |v.bytes| && p + 4 <= |data|
    ensures Int32LE(data[p..p + 4]) == |v.bytes| && PySlice(data, p + 5, p + 5 + |v.bytes|) == v.bytes
  {
    var d := v.bytes;
    PrefixedPayload(v, LE(|d|, 4), [0], d, []);
    LengthPrefixed(data, p, Payload(v), 5, d);
    Int32RoundTrip(|d|);
  }

  /** The binary branch of the decoder, given the length and the bytes it finds. */
  lemma BinaryStep(data: seq<byte>, start: nat, p: nat, n: int, d: seq<byte>)
    requires start + 4 <= |data| && start < p && p + 4 <= |data|
    requires n >= 0 && Int32LE(data[p..p + 4]) == n && PySlice(data, p + 5, p + 5 + n) == d
    ensures DecodeValue(data, start, BSON_BINARY, p) == Ok((Binary(d), p + 5 + n))
  {
  }

  /** The payload of a string or binary value: a length, a fixed middle part, the bytes, a tail. */
  lemma PrefixedPayload(v: Value, len: seq<byte>, mid: seq<byte>, body: seq<byte>, tail: seq<byte>)
    requires (v.Str? && body == v.utf8 && len == LE(|body| + 1, 4) && mid == [] && tail == [0]) ||
             (v.Binary? && body == v.bytes && len == LE(|body|, 4) && mid == [0] && tail == [])
    ensures Payload(v) == len + mid + body + tail && |len| == 4
    ensures Payload(v)[..4] == len
    ensures Payload(v)[4 + |mid|..4 + |mid| + |body|] == body
  {
    assert Payload(v) == len + mid + body + tail;
  }

  /** A payload of a 4-byte length, `k - 4` more bytes, then `body`: the length and the body read back. */
  lemma LengthPrefixed(data: seq<byte>, p: nat, pl: seq<byte>, k: nat, body: seq<byte>)
    requires 4 <= k && k + |body| <= |pl| && pl[k..k + |body|] == body
    requires p + |pl| <= |data| && data[p..p + |pl|] == pl
    ensures data[p..p + 4] == pl[..4]
    ensures PySlice(data, p + k, p + k + |body|) == body
  {
    SliceOfSlice(data, p, p + |pl|, pl, 0, 4);
    SliceOfSlice(data, p, p + |pl|, pl, k, k + |body|);
  }

  /** Distinct list positions get distinct keys. */
  lemma IndexKeyInjective(i: nat, j: nat)
    requires IndexKey(i) == IndexKey(j)
    ensures i == j
  {
    var ti, tj := DecimalText.Text(i), DecimalText.Text(j);
    assert |ti| == |IndexKey(i)| && |tj| == |IndexKey(j)|;
    forall k | 0 <= k < |ti|
      ensures ti[k] == tj[k]
    {
      assert IndexKey(i)[k] == ti[k] as int;
      assert IndexKey(j)[k] == tj[k] as int;
    }
    assert ti == tj;
    DecimalText.TextInjective(i, j);
  }

  /** The dict built for a list of decodable values is itself decodable. */
  lemma ArrayFieldsDecodable(items: seq<Value>)
    requires DecodableValue(Arr(items))
    ensures Decodable(ArrayFields(items))
  {
    var fs := ArrayFields(items);
    forall i, j | 0 <= i < j < |fs|
      ensures fs[i].key != fs[j].key
    {
      if fs[i].key == fs[j].key {
        IndexKeyInjective(i, j);
      }
    }
    forall i | 0 <= i < |fs|
      ensures 0 !in fs[i].key
    {
      var k := fs[i].key;
      assert forall m :: 0 <= m < |k| ==> k[m] != 0;
    }
  }

  /**
   * The round trip: `bson_decode(bson_encode(d), 0)` returns d itself and the
   * length of the encoding, for every dict whose keys hold no NUL and whose
   * ObjectIds are 12 bytes; lists come back as lists.
   */
  lemma RoundTrip(fs: seq<Field>)
    requires Packable(fs) && Decodable(fs)
    ensures DecodeDocument(EncodeDocument(fs), 0) == Ok((fs, |EncodeDocument(fs)|))
  {
    var d := EncodeDocument(fs);
    assert d[0..|d|] == d;
    DocumentRoundTrip(d, 0, fs);
  }

  /** An unsupported tag byte makes the decoder raise, after reading the NUL-terminated key. */
  lemma UnknownTagRejected(data: seq<byte>, offset: nat, tag: byte, key: seq<byte>)
    requires offset + 6 + |key| <= |data|
    requires Int32LE(data[offset..offset + 4]) >= 6
    requires data[offset + 4] == tag
    requires data[offset + 5..offset + 5 + |key|] == key && 0 !in key && data[offset + 5 + |key|] == 0
    requires tag !in {BSON_DOUBLE, BSON_STRING, BSON_DOCUMENT, BSON_ARRAY, BSON_BINARY, BSON_OBJECTID,
                      BSON_BOOL, BSON_DATETIME, BSON_NULL, BSON_INT32, BSON_INT64}
    ensures DecodeDocument(data, offset) == Err(UnknownType(tag))
  {
    var end := offset + Int32LE(data[offset..offset + 4]);
    var keyEnd := offset + 5 + |key|;
    forall i | offset + 5 <= i < keyEnd
      ensures data[i] != 0
    {
      assert data[i] == key[i - (offset + 5)];
    }
    assert FindNul(data, offset + 5) == Some(keyEnd) by {
      var r := FindNul(data, offset + 5);
      if r.None? || r.value != keyEnd {
        assert false;
      }
    }
    assert DecodeValue(data, offset, tag, keyEnd + 1) == Err(UnknownType(tag));
    assert DecodeElements(data, offset, offset + 4, end, []) == Err(UnknownType(tag));
  }

  /** Fewer than four bytes after `offset`: an empty dict and the offset unchanged. */
  lemma ShortInputIsEmpty(data: seq<byte>, offset: nat)
    requires |data| < offset + 4
    ensures DecodeDocument(data, offset) == Ok(([], offset as int))
  {
  }

  /** A window holding `x` holds anything equal to `x`. */
  lemma SameWindow(data: seq<byte>, p: nat, x: seq<byte>, y: seq<byte>)
    requires x == y && p + |x| <= |data| && data[p..p + |x|] == x
    ensures p + |y| <= |data| && data[p..p + |y|] == y
  {
  }

  /** A window of a window is a window of the buffer. */
  lemma SliceOfSlice(data: seq<byte>, a: nat, b: nat, x: seq<byte>, i: nat, j: nat)
    requires a <= b <= |data| && data[a..b] == x && i <= j <= |x|
    ensures data[a + i..a + j] == x[i..j]
  {
    forall k | 0 <= k < j - i
      ensures data[a + i..a + j][k] == x[i..j][k]
    {
      assert data[a + i + k] == data[a..b][i + k];
    }
  }
}
