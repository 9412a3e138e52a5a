// ChunkVersionLight: the (major, minor, epoch) triple the router-side
// coalescer compares, packs into 64 bits and reads from chunk documents.

module ChunkVersion {
  import opened Wrappers
  import opened Bytes
  import opened BsonTree

  type u32 = n: int | 0 <= n < 0x1_0000_0000

  datatype ChunkVersionLight = ChunkVersionLight(major: u32, minor: u32, epoch: seq<byte>)

  /** A default-constructed OID: twelve zero bytes. */
  const NULL_OID: seq<byte> := [0, 0, 0, 0, 0, 0, 0, 0, 0, 0, 0, 0]

  /** The default constructor: 0|0 with the default epoch. */
  const DEFAULT_VERSION: ChunkVersionLight := ChunkVersionLight(0, 0, NULL_OID)

  /**
   * `operator<`. Versions of different epochs cannot be compared; the
   * operator then answers "older" whichever side is asked.
   */
  predicate Less(a: ChunkVersionLight, b: ChunkVersionLight)
  {
    if a.epoch != b.epoch then true
    else if a.major != b.major then a.major < b.major
    else a.minor < b.minor
  }

  /** `operator>=`, defined as the negation of `<`. */
  predicate AtLeast(a: ChunkVersionLight, b: ChunkVersionLight)
  {
    !Less(a, b)
  }

  /** `operator==`: epoch, major and minor all equal. */
  predicate Same(a: ChunkVersionLight, b: ChunkVersionLight)
  {
    a.epoch == b.epoch && a.major == b.major && a.minor == b.minor
  }

  /** `toLong`: `major << 32 | minor`; the two bit ranges are disjoint, so OR is addition. */
  function ToLong(v: ChunkVersionLight): (r: u64)
  {
    v.major * TWO_32 + v.minor
  }

  /** Lexicographic order on (major, minor), the reference `<` is measured against. */
  predicate LexLess(a: ChunkVersionLight, b: ChunkVersionLight)
  {
    a.major < b.major || (a.major == b.major && a.minor < b.minor)
  }

  // ---------------------------------------------------------------------
  // Packing
  // ---------------------------------------------------------------------

  /** The high word of `toLong` is the major version and the low word the minor. */
  lemma ToLongSplit(v: ChunkVersionLight)
    ensures ToLong(v) / TWO_32 == v.major
    ensures ToLong(v) % TWO_32 == v.minor
  {
    DivModUnique(ToLong(v), TWO_32, v.major, v.minor);
  }

  /** `toLong` is injective on (major, minor) and blind to the epoch. */
  lemma ToLongInjective(a: ChunkVersionLight, b: ChunkVersionLight)
    ensures ToLong(a) == ToLong(b) <==> (a.major == b.major && a.minor == b.minor)
  {
    ToLongSplit(a);
    ToLongSplit(b);
  }

  /** Packing preserves the lexicographic order on (major, minor). */
  lemma ToLongOrder(a: ChunkVersionLight, b: ChunkVersionLight)
    ensures LexLess(a, b) <==> ToLong(a) < ToLong(b)
  {
    if a.major < b.major {
      assert (b.major - a.major) * TWO_32 >= TWO_32;
    } else if a.major > b.major {
      assert (a.major - b.major) * TWO_32 >= TWO_32;
    }
  }

  // ---------------------------------------------------------------------
  // Ordering
  // ---------------------------------------------------------------------

  /** Within one epoch `<` is lexicographic on (major, minor), i.e. it orders the packed values. */
  lemma LessWithinEpoch(a: ChunkVersionLight, b: ChunkVersionLight)
    requires a.epoch == b.epoch
    ensures Less(a, b) <==> LexLess(a, b)
    ensures Less(a, b) <==> ToLong(a) < ToLong(b)
  {
    ToLongOrder(a, b);
  }

  /** Across epochs each version is "older" than the other, so neither is `>=` the other. */
  lemma LessAcrossEpochs(a: ChunkVersionLight, b: ChunkVersionLight)
    requires a.epoch != b.epoch
    ensures Less(a, b) && Less(b, a)
    ensures !AtLeast(a, b) && !AtLeast(b, a)
  {
  }

  /** `>=` holds exactly when the epochs agree and (major, minor) is not lexicographically smaller. */
  lemma AtLeastMeaning(a: ChunkVersionLight, b: ChunkVersionLight)
    ensures AtLeast(a, b) <==> a.epoch == b.epoch && !LexLess(a, b)
  {
  }

  /** `==` is structural equality. */
  lemma SameIsEquality(a: ChunkVersionLight, b: ChunkVersionLight)
    ensures Same(a, b) <==> a == b
  {
  }

  /** `>=` is reflexive and transitive: versions of one epoch are totally preordered. */
  lemma AtLeastPreorder(a: ChunkVersionLight, b: ChunkVersionLight, c: ChunkVersionLight)
    ensures AtLeast(a, a)
    ensures AtLeast(a, b) && AtLeast(b, c) ==> AtLeast(a, c)
    ensures a.epoch == b.epoch ==> AtLeast(a, b) || AtLeast(b, a)
  {
  }

  // ---------------------------------------------------------------------
  // BSON form
  // ---------------------------------------------------------------------

  /** The 32-bit unsigned field a Timestamp stores, as `getSecs`/`getInc` read it. */
  function Word32(x: int): (r: u32)
  {
    x % TWO_32
  }

  /**
   * `ChunkVersionLight::fromBSON(obj, field)`: the version from a Timestamp
   * under `field` and the epoch from an OID under "epoch"; a missing or
   * differently typed element leaves that part at its default.
   */
  function FromBson(obj: Doc, field: string): (v: ChunkVersionLight)
  {
    ChunkVersionLight(LastmodWord(GetField(obj, field), true), LastmodWord(GetField(obj, field), false),
                      EpochOf(GetField(obj, "epoch")))
  }

  /** The seconds (`high`) or increment word of a Timestamp element, 0 for anything else. */
  function LastmodWord(e: Option<Elem>, high: bool): u32
  {
    match e
    case Some(Elem(_, Timestamp(secs, inc))) => if high then Word32(secs) else Word32(inc)
    case _ => 0
  }

  /** The OID of an ObjectId element, the default epoch for anything else. */
  function EpochOf(e: Option<Elem>): seq<byte>
  {
    match e
    case Some(Elem(_, Oid(id))) => id
    case _ => NULL_OID
  }

  /**
   * `toBSON`: `{lastmod: Timestamp(toLong()), epoch: OID}`. A Timestamp built
   * from a 64-bit value takes the high word as seconds and the low word as
   * the increment.
   */
  function ToBson(v: ChunkVersionLight): (d: Doc)
  {
    var packed := ToLong(v);
    [Elem("lastmod", Timestamp(packed / TWO_32, packed % TWO_32)), Elem("epoch", Oid(v.epoch))]
  }

  /** `fromBSON(toBSON(v))` gives back major, minor and epoch. */
  lemma BsonRoundTrip(v: ChunkVersionLight)
    ensures FromBson(ToBson(v), "lastmod") == v
  {
    ToLongSplit(v);
    var d := ToBson(v);
    assert GetField(d, "lastmod") == Some(d[0]);
    assert GetField(d, "epoch") == Some(d[1]);
  }

  /** A non-Timestamp (or missing) `lastmod` reads as 0|0; a non-OID epoch reads as the default epoch. */
  lemma FromBsonDefaults(obj: Doc, field: string)
    ensures !(HasField(obj, field) && GetField(obj, field).value.val.Timestamp?) ==>
              FromBson(obj, field).major == 0 && FromBson(obj, field).minor == 0
    ensures !(HasField(obj, "epoch") && GetField(obj, "epoch").value.val.Oid?) ==>
              FromBson(obj, field).epoch == NULL_OID
    ensures HasField(obj, field) && GetField(obj, field).value.val.Timestamp? ==>
              ToLong(FromBson(obj, field)) == Word32(GetField(obj, field).value.val.secs) * TWO_32
                                              + Word32(GetField(obj, field).value.val.inc)
  {
  }
}
