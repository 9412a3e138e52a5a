/**
 * The hand-written BSON encoder and decoder of the raw-protocol stability
 * benchmark (`bson_encode` / `bson_decode`).  Python values are modelled by
 * `Value`; text is carried as its UTF-8 bytes, a float as its 8 IEEE bytes.
 */
module BsonCodec {
  import opened Wrappers
  import opened Bytes
  import DecimalText

  const BSON_DOUBLE: byte := 0x01
  const BSON_STRING: byte := 0x02
  const BSON_DOCUMENT: byte := 0x03
  const BSON_ARRAY: byte := 0x04
  const BSON_BINARY: byte := 0x05
  const BSON_OBJECTID: byte := 0x07
  const BSON_BOOL: byte := 0x08
  const BSON_DATETIME: byte := 0x09
  const BSON_NULL: byte := 0x0A
  const BSON_INT32: byte := 0x10
  const BSON_INT64: byte := 0x12

  /** The 8 bytes `struct.pack('<d', x)` writes for a float x. */
  type Float64 = s: seq<byte> | |s| == 8 witness [0, 0, 0, 0, 0, 0, 0, 0]

  /** The Python values the codec handles; a `dict` is `Doc`, a `list` or `tuple` is `Arr`. */
  datatype Value =
    | Null
    | Bool(b: bool)
    | Int(i: int)
    | Double(bits: Float64)
    | Str(utf8: seq<byte>)
    | Binary(bytes: seq<byte>)
    | Oid(binary: seq<byte>)
    | Doc(fields: seq<Field>)
    | Arr(items: seq<Value>)

  /** One `key: value` entry of a dict, the key as its UTF-8 bytes. */
  datatype Field = Field(key: seq<byte>, value: Value)

  /** The `struct.error` raised when a value does not fit the packed width. */
  datatype EncodeError = PackOverflow

  datatype DecodeError =
    | IndexError          // `data[pos]` past the end of the buffer
    | StructError         // `struct.unpack_from` past the end of the buffer
    | KeyNotTerminated    // `data.index(b'\x00', pos)` found no NUL (ValueError)
    | UnknownType(tag: byte)   // the ValueError for an unsupported tag byte
    | NegativeLength      // a negative length field, which would move the cursor backwards

  // ---------------------------------------------------------------------
  // Sizes (for termination) and dict helpers
  // ---------------------------------------------------------------------

  function Size(v: Value): (n: nat)
    ensures n >= 1
  {
    match v
    case Doc(fs) => 1 + FieldsSize(fs)
    case Arr(items) => 1 + ItemsSize(items)
    case _ => 1
  }

  function FieldsSize(fs: seq<Field>): (n: nat)
    ensures forall i :: 0 <= i < |fs| ==> Size(fs[i].value) <= n
  {
    if |fs| == 0 then 0 else Size(fs[0].value) + FieldsSize(fs[1..])
  }

  function ItemsSize(items: seq<Value>): (n: nat)
    ensures forall i :: 0 <= i < |items| ==> Size(items[i]) <= n
  {
    if |items| == 0 then 0 else Size(items[0]) + ItemsSize(items[1..])
  }

  function Keys(fs: seq<Field>): seq<seq<byte>>
  {
    seq(|fs|, i requires 0 <= i < |fs| => fs[i].key)
  }

  function ValuesOf(fs: seq<Field>): seq<Value>
  {
    seq(|fs|, i requires 0 <= i < |fs| => fs[i].value)
  }

  /** The key `str(i)` under which `bson_encode` stores the i-th list element. */
  function IndexKey(i: nat): (k: seq<byte>)
    ensures forall j :: 0 <= j < |k| ==> k[j] != 0
  {
    var t := DecimalText.Text(i);
    seq(|t|, j requires 0 <= j < |t| => t[j] as int)
  }

  /** The OrderedDict `{"0": items[0], "1": items[1], ...}` built for a list. */
  function ArrayFields(items: seq<Value>): (fs: seq<Field>)
    ensures |fs| == |items|
  {
    seq(|items|, i requires 0 <= i < |items| => Field(IndexKey(i), items[i]))
  }

  /** `d[key] = v` on an OrderedDict: replace in place, or append a new key. */
  function Put(fs: seq<Field>, key: seq<byte>, v: Value): (r: seq<Field>)
    ensures key !in Keys(fs) ==> r == fs + [Field(key, v)]
    ensures key in Keys(fs) ==> |r| == |fs| && Keys(r) == Keys(fs)
  {
    if |fs| == 0 then [Field(key, v)]
    else if fs[0].key == key then
      assert Keys(fs)[0] == key;
      [Field(key, v)] + fs[1..]
    else
      assert Keys(fs) == [fs[0].key] + Keys(fs[1..]);
      var rest := Put(fs[1..], key, v);
      assert Keys([fs[0]] + rest) == [fs[0].key] + Keys(rest);
      [fs[0]] + rest
  }

  // ---------------------------------------------------------------------
  // Encoding (the byte layout bson_encode writes)
  // ---------------------------------------------------------------------

  /** The tag byte written before the key; bool is tested before int. */
  function Tag(v: Value): byte
  {
    match v
    case Null => BSON_NULL
    case Bool(_) => BSON_BOOL
    case Int(i) => if InInt32(i) then BSON_INT32 else BSON_INT64
    case Double(_) => BSON_DOUBLE
    case Str(_) => BSON_STRING
    case Binary(_) => BSON_BINARY
    case Oid(_) => BSON_OBJECTID
    case Doc(_) => BSON_DOCUMENT
    case Arr(_) => BSON_ARRAY
  }

  /** An element list framed as a document: int32 total length, elements, NUL. */
  function Frame(elements: seq<byte>): (r: seq<byte>)
    ensures |r| == |elements| + 5
  {
    LE(|elements| + 5, 4) + elements + [0]
  }

  function Payload(v: Value): seq<byte>
    decreases Size(v), 1
  {
    match v
    case Null => []
    case Bool(b) => if b then [1] else [0]
    case Int(i) => if InInt32(i) then LE(i, 4) else LE(i, 8)
    case Double(bits) => bits
    case Str(s) => LE(|s| + 1, 4) + s + [0]
    case Binary(d) => LE(|d|, 4) + [0] + d
    case Oid(b) => b
    case Doc(fs) => Frame(EncodeFields(fs))
    case Arr(items) =>
      ArrayFieldsSize(items);
      Frame(EncodeFields(ArrayFields(items)))
  }

  function EncodeElement(key: seq<byte>, v: Value): seq<byte>
    decreases Size(v), 2
  {
    [Tag(v)] + key + [0] + Payload(v)
  }

  function EncodeFields(fs: seq<Field>): seq<byte>
    decreases FieldsSize(fs), 3
  {
    if |fs| == 0 then []
    else
      EncodeElement(fs[0].key, fs[0].value) + EncodeFields(fs[1..])
  }

  /** The bytes `bson_encode(d)` returns for a dict d. */
  function EncodeDocument(fs: seq<Field>): seq<byte>
  {
    Frame(EncodeFields(fs))
  }

  /** No `struct.pack` call of the encoder overflows on v. */
  predicate PackableValue(v: Value)
    decreases Size(v), 1
  {
    match v
    case Int(i) => InInt64(i)
    case Str(s) => |s| + 1 <= INT32_MAX
    case Binary(d) => |d| <= INT32_MAX
    case Doc(fs) => Packable(fs)
    case Arr(items) =>
      ArrayFieldsSize(items);
      Packable(ArrayFields(items))
    case _ => true
  }

  /** `bson_encode(d)` raises no `struct.error`. */
  predicate Packable(fs: seq<Field>)
    decreases FieldsSize(fs), 2
  {
    (forall i :: 0 <= i < |fs| ==> PackableValue(fs[i].value))
    && |EncodeFields(fs)| + 5 <= INT32_MAX
  }

  /**
   * What `bson_decode` needs to read a value back as it was written: dict keys
   * that are distinct and contain no NUL, and 12-byte ObjectIds.
   */
  predicate DecodableValue(v: Value)
    decreases Size(v), 1
  {
    match v
    case Oid(b) => |b| == 12
    case Doc(fs) => Decodable(fs)
    case Arr(items) =>
      forall i :: 0 <= i < |items| ==> DecodableValue(items[i])
    case _ => true
  }

  predicate Decodable(fs: seq<Field>)
    decreases FieldsSize(fs), 2
  {
    (forall i :: 0 <= i < |fs| ==> 0 !in fs[i].key)
    && (forall i, j :: 0 <= i < j < |fs| ==> fs[i].key != fs[j].key)
    && (forall i :: 0 <= i < |fs| ==> DecodableValue(fs[i].value))
  }

  // ---------------------------------------------------------------------
  // Decoding (what bson_decode computes)
  // ---------------------------------------------------------------------

  /** Bytes after `pos`, the measure that shrinks on every nested document. */
  function Room(data: seq<byte>, pos: nat): nat
  {
    if pos < |data| then |data| - pos else 0
  }

  /** `data[lo:hi]` for non-negative bounds: both ends clamp to the buffer. */
  function PySlice(data: seq<byte>, lo: nat, hi: nat): (r: seq<byte>)
    ensures hi <= |data| && lo <= hi ==> r == data[lo..hi]
  {
    var l := if lo < |data| then lo else |data|;
    var h := if hi < |data| then hi else |data|;
    if h <= l then [] else data[l..h]
  }

  /** `data.index(b'\x00', from)`: the first NUL at or after `from`. */
  function FindNul(data: seq<byte>, from: nat): (r: Option<nat>)
    ensures r.Some? ==> from <= r.value < |data| && data[r.value] == 0
    ensures r.Some? ==> forall i :: from <= i < r.value ==> data[i] != 0
    ensures r.None? ==> forall i :: from <= i < |data| ==> data[i] != 0
    decreases |data| - from
  {
    if from >= |data| then None
    else if data[from] == 0 then Some(from)
    else FindNul(data, from + 1)
  }

  /** `bson_decode(data, offset)`: the decoded dict and the declared end. */
  function DecodeDocument(data: seq<byte>, offset: nat): Result<(seq<Field>, int), DecodeError>
    decreases Room(data, offset), 1, 0
  {
    if |data| < offset + 4 then Ok(([], offset))
    else
      var end := offset + Int32LE(data[offset..offset + 4]);
      match DecodeElements(data, offset, offset + 4, end, [])
      case Ok(fs) => Ok((fs, end))
      case Err(e) => Err(e)
  }

  /** The `while pos < end - 1` loop of `bson_decode`, from cursor `pos` with `acc` read so far. */
  function DecodeElements(data: seq<byte>, start: nat, pos: nat, end: int, acc: seq<Field>)
    : Result<seq<Field>, DecodeError>
    requires start + 4 <= |data| && start < pos
    decreases Room(data, start), 0, if pos < end then end - pos else 0
  {
    if pos >= end - 1 then Ok(acc)
    else if pos >= |data| then Err(IndexError)
    else
      match FindNul(data, pos + 1)
      case None => Err(KeyNotTerminated)
      case Some(keyEnd) =>
        match DecodeValue(data, start, data[pos], keyEnd + 1)
        case Err(e) => Err(e)
        case Ok(vn) => DecodeElements(data, start, vn.1, end, Put(acc, data[pos + 1..keyEnd], vn.0))
  }

  /** One pass of the decoding loop, unfolded. */
  lemma ElementsStep(data: seq<byte>, start: nat, pos: nat, end: int, acc: seq<Field>,
                     keyEnd: nat, v: Value, next: nat)
    requires start + 4 <= |data| && start < pos && pos < end - 1 && pos < |data|
    requires FindNul(data, pos + 1) == Some(keyEnd)
    requires DecodeValue(data, start, data[pos], keyEnd + 1) == Ok((v, next))
    ensures DecodeElements(data, start, pos, end, acc)
         == DecodeElements(data, start, next, end, Put(acc, data[pos + 1..keyEnd], v))
  {
    var vn := DecodeValue(data, start, data[pos], keyEnd + 1).value;
    assert vn.0 == v && vn.1 == next;
  }

  /** The per-tag branch of the loop: the value after the key and the new cursor. */
  function DecodeValue(data: seq<byte>, start: nat, tag: byte, pos: nat): (r: Result<(Value, nat), DecodeError>)
    requires start + 4 <= |data| && start < pos
    ensures r.Ok? ==> r.value.1 >= pos
    decreases Room(data, start), 0, 0
  {
    if tag == BSON_DOUBLE then
      if pos + 8 <= |data| then Ok((Double(data[pos..pos + 8]), pos + 8)) else Err(StructError)
    else if tag == BSON_STRING then
      if pos + 4 > |data| then Err(StructError)
      else
        var n := Int32LE(data[pos..pos + 4]);
        if n < 0 then Err(NegativeLength)
        else Ok((Str(PySlice(data, pos + 4, pos + 4 + n - 1)), pos + 4 + n))
    else if tag == BSON_DOCUMENT || tag == BSON_ARRAY then
      match DecodeDocument(data, pos)
      case Err(e) => Err(e)
      case Ok(sub) =>
        if sub.1 < pos then Err(NegativeLength)
        else Ok((if tag == BSON_DOCUMENT then Doc(sub.0) else Arr(ValuesOf(sub.0)), sub.1))
    else if tag == BSON_BINARY then
      if pos + 4 > |data| then Err(StructError)
      else
        var n := Int32LE(data[pos..pos + 4]);
        if n < 0 then Err(NegativeLength)
        else Ok((Binary(PySlice(data, pos + 5, pos + 5 + n)), pos + 5 + n))
    else if tag == BSON_OBJECTID then
      Ok((Oid(PySlice(data, pos, pos + 12)), pos + 12))
    else if tag == BSON_BOOL then
      if pos < |data| then Ok((Bool(data[pos] != 0), pos + 1)) else Err(IndexError)
    else if tag == BSON_DATETIME || tag == BSON_INT64 then
      if pos + 8 <= |data| then Ok((Int(Int64LE(data[pos..pos + 8])), pos + 8)) else Err(StructError)
    else if tag == BSON_NULL then
      Ok((Null, pos))
    else if tag == BSON_INT32 then
      if pos + 4 <= |data| then Ok((Int(Int32LE(data[pos..pos + 4])), pos + 4)) else Err(StructError)
    else
      Err(UnknownType(tag))
  }

  // ---------------------------------------------------------------------
  // The two imperative routines
  // ---------------------------------------------------------------------

  /**
   * `bson_encode(doc)`: `None` is the empty document; otherwise the body is
   * grown element by element and framed.  The only failure is a `struct.error`
   * from an int outside 64 bits or a length outside 32 bits.
   */
  method BsonEncode(doc: Option<seq<Field>>) returns (r: Result<seq<byte>, EncodeError>)
    ensures doc.None? ==> r == Ok([5, 0, 0, 0, 0])
    ensures doc.Some? && Packable(doc.value) ==> r == Ok(EncodeDocument(doc.value))
    ensures doc.Some? && !Packable(doc.value) ==> r == Err(PackOverflow)
    decreases if doc.Some? then FieldsSize(doc.value) else 0, 1
  {
    if doc.None? {
      return Ok([5, 0, 0, 0, 0]);
    }
    var fs := doc.value;
    var body: seq<byte> := [];
    var i := 0;
    while i < |fs|
      invariant 0 <= i <= |fs|
      invariant body == EncodeFields(fs[..i])
      invariant forall j :: 0 <= j < i ==> PackableValue(fs[j].value)
    {
      var element := EncodeItem(fs[i].key, fs[i].value);
      if element.Err? {
        assert !Packable(fs) by { assert !PackableValue(fs[i].value); }
        return Err(PackOverflow);
      }
      EncodeFieldsSnoc(fs[..i], fs[i]);
      assert fs[..i + 1] == fs[..i] + [fs[i]];
      body := body + element.value;
      i := i + 1;
    }
    assert fs[..i] == fs;
    body := body + [0];
    if |body| + 4 > INT32_MAX {
      return Err(PackOverflow);
    }
    assert LE(|body| + 4, 4) + body == EncodeDocument(fs);
    return Ok(LE(|body| + 4, 4) + body);
  }

  /** One pass of the `bson_encode` loop: the element bytes for `key: value`. */
  method EncodeItem(key: seq<byte>, value: Value) returns (r: Result<seq<byte>, EncodeError>)
    ensures PackableValue(value) ==> r == Ok(EncodeElement(key, value))
    ensures !PackableValue(value) ==> r == Err(PackOverflow)
    decreases Size(value), 0
  {
    var keyBytes := key + [0];
    var payload: seq<byte>;
    match value {
      case Null =>
        payload := [];
      case Bool(b) =>
        payload := if b then [1] else [0];
      case Int(n) =>
        if InInt32(n) {
          payload := LE(n, 4);
        } else if InInt64(n) {
          payload := LE(n, 8);
        } else {
          return Err(PackOverflow);
        }
      case Double(bits) =>
        payload := bits;
      case Str(s) =>
        var strBytes := s + [0];
        if |strBytes| > INT32_MAX {
          return Err(PackOverflow);
        }
        payload := LE(|strBytes|, 4) + strBytes;
      case Binary(d) =>
        if |d| > INT32_MAX {
          return Err(PackOverflow);
        }
        payload := LE(|d|, 4) + [0] + d;
      case Doc(sub) =>
        var subdoc := BsonEncode(Some(sub));
        if subdoc.Err? {
          return Err(PackOverflow);
        }
        payload := subdoc.value;
      case Arr(items) =>
        var arrayDoc := ListAsDict(items);
        ArrayFieldsSize(items);
        var subdoc := BsonEncode(Some(arrayDoc));
        if subdoc.Err? {
          return Err(PackOverflow);
        }
        payload := subdoc.value;
      case Oid(b) =>
        payload := b;
    }
    assert payload == Payload(value);
    assert PackableValue(value);
    var element := [Tag(value)] + keyBytes + payload;
    assert element == EncodeElement(key, value);
    return Ok(element);
  }

  /** The `OrderedDict` keyed `str(i)` that `bson_encode` builds for a list. */
  method ListAsDict(items: seq<Value>) returns (arrayDoc: seq<Field>)
    ensures arrayDoc == ArrayFields(items)
  {
    arrayDoc := [];
    var j := 0;
    while j < |items|
      invariant 0 <= j <= |items|
      invariant arrayDoc == ArrayFields(items[..j])
    {
      arrayDoc := arrayDoc + [Field(IndexKey(j), items[j])];
      j := j + 1;
    }
    assert items[..j] == items;
  }

  /**
   * `bson_decode(data, offset)`: reads the declared length, then elements
   * until the cursor reaches `end - 1`, filling an OrderedDict.
   */
  method BsonDecode(data: seq<byte>, offset: nat) returns (r: Result<(seq<Field>, int), DecodeError>)
    ensures r == DecodeDocument(data, offset)
    decreases Room(data, offset), 1
  {
    if |data| < offset + 4 {
      return Ok(([], offset));
    }
    var docLen := Int32LE(data[offset..offset + 4]);
    var end := offset + docLen;
    var pos := offset + 4;
    var result: seq<Field> := [];
    while pos < end - 1
      invariant offset < pos
      invariant DecodeElements(data, offset, offset + 4, end, []) == DecodeElements(data, offset, pos, end, result)
      decreases end - pos
    {
      if pos >= |data| {
        return Err(IndexError);
      }
      var typeByte := data[pos];
      var keyEnd := FindNul(data, pos + 1);
      if keyEnd.None? {
        return Err(KeyNotTerminated);
      }
      var key := data[pos + 1..keyEnd.value];
      var read := ReadValue(data, offset, typeByte, keyEnd.value + 1);
      if read.Err? {
        return Err(read.error);
      }
      ElementsStep(data, offset, pos, end, result, keyEnd.value, read.value.0, read.value.1);
      result := Put(result, key, read.value.0);
      pos := read.value.1;
    }
    return Ok((result, end));
  }

  /** The per-tag branch of the `bson_decode` loop, reading the value after a key. */
  method ReadValue(data: seq<byte>, start: nat, typeByte: byte, pos: nat) returns (r: Result<(Value, nat), DecodeError>)
    requires start + 4 <= |data| && start < pos
    ensures r == DecodeValue(data, start, typeByte, pos)
    decreases Room(data, start), 0
  {
    var p := pos;
    var value: Value;
    if typeByte == BSON_DOUBLE {
      if p + 8 > |data| {
        return Err(StructError);
      }
      value, p := Double(data[p..p + 8]), p + 8;
    } else if typeByte == BSON_STRING {
      if p + 4 > |data| {
        return Err(StructError);
      }
      var strLen := Int32LE(data[p..p + 4]);
      if strLen < 0 {
        return Err(NegativeLength);
      }
      value, p := Str(PySlice(data, p + 4, p + 4 + strLen - 1)), p + 4 + strLen;
    } else if typeByte == BSON_DOCUMENT || typeByte == BSON_ARRAY {
      var sub := BsonDecode(data, p);
      if sub.Err? {
        return Err(sub.error);
      }
      if sub.value.1 < p {
        return Err(NegativeLength);
      }
      value := if typeByte == BSON_DOCUMENT then Doc(sub.value.0) else Arr(ValuesOf(sub.value.0));
      p := sub.value.1;
    } else if typeByte == BSON_BINARY {
      if p + 4 > |data| {
        return Err(StructError);
      }
      var binLen := Int32LE(data[p..p + 4]);
      if binLen < 0 {
        return Err(NegativeLength);
      }
      value, p := Binary(PySlice(data, p + 5, p + 5 + binLen)), p + 5 + binLen;
    } else if typeByte == BSON_OBJECTID {
      value, p := Oid(PySlice(data, p, p + 12)), p + 12;
    } else if typeByte == BSON_BOOL {
      if p >= |data| {
        return Err(IndexError);
      }
      value, p := Bool(data[p] != 0), p + 1;
    } else if typeByte == BSON_DATETIME || typeByte == BSON_INT64 {
      if p + 8 > |data| {
        return Err(StructError);
      }
      value, p := Int(Int64LE(data[p..p + 8])), p + 8;
    } else if typeByte == BSON_NULL {
      value := Null;
    } else if typeByte == BSON_INT32 {
      if p + 4 > |data| {
        return Err(StructError);
      }
      value, p := Int(Int32LE(data[p..p + 4])), p + 4;
    } else {
      return Err(UnknownType(typeByte));
    }
    return Ok((value, p));
  }

  // ---------------------------------------------------------------------
  // Size and encoding helper lemmas
  // ---------------------------------------------------------------------

  /** The dict built for a list is as large as the list. */
  lemma {:induction false} ArrayFieldsSize(items: seq<Value>)
    ensures FieldsSize(ArrayFields(items)) == ItemsSize(items)
    ensures Size(Arr(items)) == 1 + FieldsSize(ArrayFields(items))
  {
    ArrayFieldsSizeFrom(items, 0);
  }

  function ArrayFieldsFrom(items: seq<Value>, k: nat): (fs: seq<Field>)
    ensures |fs| == |items|
  {
    seq(|items|, i requires 0 <= i < |items| => Field(IndexKey(k + i), items[i]))
  }

  lemma {:induction false} ArrayFieldsSizeFrom(items: seq<Value>, k: nat)
    ensures FieldsSize(ArrayFieldsFrom(items, k)) == ItemsSize(items)
    ensures ArrayFields(items) == ArrayFieldsFrom(items, 0)
    decreases |items|
  {
    if |items| > 0 {
      assert ArrayFieldsFrom(items, k)[1..] == ArrayFieldsFrom(items[1..], k + 1);
      ArrayFieldsSizeFrom(items[1..], k + 1);
    }
  }

  lemma {:induction false} EncodeFieldsSnoc(fs: seq<Field>, f: Field)
    ensures EncodeFields(fs + [f]) == EncodeFields(fs) + EncodeElement(f.key, f.value)
    decreases |fs|
  {
    if |fs| == 0 {
      assert [f][1..] == [];
    } else {
      assert (fs + [f])[1..] == fs[1..] + [f];
      EncodeFieldsSnoc(fs[1..], f);
    }
  }
}
