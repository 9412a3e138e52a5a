/**
 * The BSON object model the server (`BSONObj` / `BSONElement`) and the Java
 * driver (`Document`) share: an ordered list of named elements whose values
 * are scalars, embedded objects or arrays.  An array is an object whose field
 * names are "0", "1", ...; `Arr` keeps those names as given.  The absent
 * element (EOO) is `None`.
 */
module BsonTree {
  import opened Wrappers
  import opened Bytes
  import BsonCodec

  /** A 64-bit unsigned value, the result type of XXH64. */
  type u64 = n: int | 0 <= n < 0x1_0000_0000_0000_0000

  datatype Val =
    | Null
    | Bool(b: bool)
    | Int32(i: int)
    | Long(l: int)
    | Double(bits: int)              // the IEEE-754 bit pattern, as an unsigned 64-bit value
    | Str(s: string)
    | Oid(id: seq<byte>)
    | Timestamp(secs: int, inc: int)
    | Obj(fields: seq<Elem>)
    | Arr(items: seq<Elem>)

  datatype Elem = Elem(name: string, val: Val)

  type Doc = seq<Elem>

  predicate IsContainer(v: Val) { v.Obj? || v.Arr? }

  /** The element list of an embedded object or array (`embeddedObject()`). */
  function Embedded(v: Val): Doc
    requires IsContainer(v)
  {
    if v.Obj? then v.fields else v.items
  }

  // ---------------------------------------------------------------------
  // Lookup
  // ---------------------------------------------------------------------

  predicate HasField(d: Doc, name: string)
  {
    exists i :: 0 <= i < |d| && d[i].name == name
  }

  /** `BSONObj::getField`: the first element with that name, or EOO. */
  function GetField(d: Doc, name: string): (r: Option<Elem>)
    ensures r.None? <==> !HasField(d, name)
    ensures r.Some? ==> exists i :: 0 <= i < |d| && d[i] == r.value && r.value.name == name &&
                                    forall j :: 0 <= j < i ==> d[j].name != name
  {
    if |d| == 0 then None
    else if d[0].name == name then Some(d[0])
    else
      var r := GetField(d[1..], name);
      HasFieldCons(d, name);
      if r.Some? then
        var i :| 0 <= i < |d[1..]| && d[1..][i] == r.value && r.value.name == name &&
                 forall j :: 0 <= j < i ==> d[1..][j].name != name;
        assert d[i + 1] == r.value;
        assert forall j :: 0 <= j < i + 1 ==> d[j].name != name by {
          forall j | 0 <= j < i + 1 ensures d[j].name != name {
            if j > 0 { assert d[j] == d[1..][j - 1]; }
          }
        }
        r
      else r
  }

  /**
   * `BSONObj::getObjectField`: the contents of the named element when it is
   * an object or an array, and the empty object otherwise.
   */
  function GetObjectField(d: Doc, name: string): (r: Doc)
    ensures r != [] ==> GetField(d, name).Some? && IsContainer(GetField(d, name).value.val) &&
                        r == Embedded(GetField(d, name).value.val)
    ensures GetField(d, name).Some? && IsContainer(GetField(d, name).value.val) ==>
              r == Embedded(GetField(d, name).value.val)
  {
    match GetField(d, name)
    case Some(e) => if IsContainer(e.val) then Embedded(e.val) else []
    case None => []
  }

  function Names(d: Doc): (ns: seq<string>)
    ensures |ns| == |d|
    ensures forall i :: 0 <= i < |d| ==> ns[i] == d[i].name
  {
    if |d| == 0 then [] else [d[0].name] + Names(d[1..])
  }

  /** No two elements share a name, as in a Java `Document` (a LinkedHashMap). */
  predicate DistinctNames(d: Doc)
  {
    forall i, j :: 0 <= i < j < |d| ==> d[i].name != d[j].name
  }

  /** A name occurs in a non-empty list iff it heads it or occurs in the rest. */
  lemma HasFieldCons(d: Doc, name: string)
    requires |d| > 0
    ensures HasField(d, name) <==> d[0].name == name || HasField(d[1..], name)
  {
    if HasField(d, name) && d[0].name != name {
      var i :| 0 <= i < |d| && d[i].name == name;
      assert d[1..][i - 1].name == name;
    }
    if HasField(d[1..], name) {
      var i :| 0 <= i < |d[1..]| && d[1..][i].name == name;
      assert d[i + 1].name == name;
    }
  }

  /**
   * `Document.put` (LinkedHashMap semantics): an existing key keeps its
   * position and takes the new value; a new key is appended.
   */
  function Put(d: Doc, name: string, v: Val): (r: Doc)
    ensures HasField(d, name) ==> Names(r) == Names(d)
    ensures !HasField(d, name) ==> r == d + [Elem(name, v)]
  {
    if |d| == 0 then [Elem(name, v)]
    else if d[0].name == name then
      var r := [Elem(name, v)] + d[1..];
      assert Names(r) == [name] + Names(d[1..]);
      assert Names(d) == [d[0].name] + Names(d[1..]);
      r
    else
      var rest := Put(d[1..], name, v);
      var r := [d[0]] + rest;
      HasFieldCons(d, name);
      assert Names(r) == [d[0].name] + Names(rest);
      assert Names(d) == [d[0].name] + Names(d[1..]);
      assert !HasField(d, name) ==> r == d + [Elem(name, v)] by {
        if !HasField(d, name) {
          assert d == [d[0]] + d[1..];
        }
      }
      r
  }

  /** After a put, looking the name up yields the new value. */
  lemma {:induction false} GetAfterPut(d: Doc, name: string, v: Val)
    ensures GetField(Put(d, name, v), name) == Some(Elem(name, v))
  {
    if |d| > 0 && d[0].name != name {
      GetAfterPut(d[1..], name, v);
      var r := Put(d, name, v);
      assert r == [d[0]] + Put(d[1..], name, v);
      assert r[1..] == Put(d[1..], name, v);
    }
  }

  /** A put leaves every other name's lookup as it was. */
  lemma {:induction false} GetOtherAfterPut(d: Doc, name: string, v: Val, other: string)
    requires other != name
    ensures GetField(Put(d, name, v), other) == GetField(d, other)
  {
    if |d| > 0 {
      var r := Put(d, name, v);
      if d[0].name == name {
        assert r == [Elem(name, v)] + d[1..];
        assert r[1..] == d[1..];
      } else {
        GetOtherAfterPut(d[1..], name, v, other);
        assert r == [d[0]] + Put(d[1..], name, v);
        assert r[1..] == Put(d[1..], name, v);
      }
    }
  }

  /** Putting into a document with distinct names keeps them distinct. */
  lemma PutKeepsDistinct(d: Doc, name: string, v: Val)
    requires DistinctNames(d)
    ensures DistinctNames(Put(d, name, v))
  {
    var r := Put(d, name, v);
    if HasField(d, name) {
      assert forall i :: 0 <= i < |r| ==> r[i].name == Names(r)[i] == Names(d)[i] == d[i].name;
    } else {
      assert forall i :: 0 <= i < |d| ==> d[i].name != name;
    }
  }

  // ---------------------------------------------------------------------
  // The binary layout (BSON 1.1, bsonspec.org)
  // ---------------------------------------------------------------------

  const TIMESTAMP_TAG: byte := 0x11

  /** The type byte of an element. */
  function Tag(v: Val): byte
  {
    match v
    case Null => BsonCodec.BSON_NULL
    case Bool(_) => BsonCodec.BSON_BOOL
    case Int32(_) => BsonCodec.BSON_INT32
    case Long(_) => BsonCodec.BSON_INT64
    case Double(_) => BsonCodec.BSON_DOUBLE
    case Str(_) => BsonCodec.BSON_STRING
    case Oid(_) => BsonCodec.BSON_OBJECTID
    case Timestamp(_, _) => TIMESTAMP_TAG
    case Obj(_) => BsonCodec.BSON_DOCUMENT
    case Arr(_) => BsonCodec.BSON_ARRAY
  }

  /** A name or string as bytes: each character stands for one byte. */
  function TextBytes(s: string): (r: seq<byte>)
    ensures |r| == |s|
  {
    seq(|s|, i requires 0 <= i < |s| => (s[i] as int) % 256)
  }

  function ValBytes(v: Val): seq<byte>
    decreases v, 0
  {
    match v
    case Null => []
    case Bool(b) => if b then [1] else [0]
    case Int32(i) => LE(i, 4)
    case Long(l) => LE(l, 8)
    case Double(bits) => LE(bits, 8)
    case Str(s) => LE(|s| + 1, 4) + TextBytes(s) + [0]
    case Oid(id) => id
    case Timestamp(secs, inc) => LE(inc, 4) + LE(secs, 4)
    case Obj(fields) => BsonCodec.Frame(ElemsBytes(fields))
    case Arr(items) => BsonCodec.Frame(ElemsBytes(items))
  }

  /** One element: type byte, NUL-terminated name, payload. */
  function ElemBytes(e: Elem): (r: seq<byte>)
    ensures |r| >= |e.name| + 2
    decreases e, 0
  {
    [Tag(e.val)] + TextBytes(e.name) + [0] + ValBytes(e.val)
  }

  function ElemsBytes(d: Doc): seq<byte>
    decreases d, 1
  {
    if |d| == 0 then [] else ElemBytes(d[0]) + ElemsBytes(d[1..])
  }

  /** `objdata()[0 .. objsize())`: int32 total size, elements, terminating NUL. */
  function DocBytes(d: Doc): seq<byte>
  {
    BsonCodec.Frame(ElemsBytes(d))
  }

  /** The element list of a document lies between the 4-byte size and the terminator. */
  lemma DocBytesLayout(d: Doc)
    ensures |DocBytes(d)| == |ElemsBytes(d)| + 5
    ensures DocBytes(d)[4..|DocBytes(d)| - 1] == ElemsBytes(d)
    ensures DocBytes(d)[|DocBytes(d)| - 1] == 0
    ensures |DocBytes(d)| < TWO_32 ==> FromLE(DocBytes(d)[..4]) == |DocBytes(d)|
  {
    var b := DocBytes(d);
    assert b[..4] == LE(|ElemsBytes(d)| + 5, 4);
    if |b| < TWO_32 {
      Uint32RoundTrip(|b|);
    }
  }

  /** Serialization distributes over concatenation of element lists. */
  lemma {:induction false} ElemsBytesAppend(a: Doc, b: Doc)
    ensures ElemsBytes(a + b) == ElemsBytes(a) + ElemsBytes(b)
    decreases |a|
  {
    if |a| == 0 {
      assert a + b == b;
    } else {
      assert (a + b)[0] == a[0];
      assert (a + b)[1..] == a[1..] + b;
      ElemsBytesAppend(a[1..], b);
    }
  }

  // ---------------------------------------------------------------------
  // Numbers
  // ---------------------------------------------------------------------

  const DOUBLE_SIGN: int := 0x8000_0000_0000_0000
  const DOUBLE_INFINITY: int := 0x7FF0_0000_0000_0000

  /**
   * `BSONElement::number() < 0`: a negative int or long, or a double whose
   * sign bit is set and which is neither -0.0 nor a NaN.  Non-numeric values
   * read as 0.
   */
  predicate NegativeNumber(v: Val)
  {
    match v
    case Int32(i) => i < 0
    case Long(l) => l < 0
    case Double(bits) => bits >= DOUBLE_SIGN && 0 < bits - DOUBLE_SIGN <= DOUBLE_INFINITY
    case _ => false
  }
}
