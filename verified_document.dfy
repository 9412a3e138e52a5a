/**
 * The Java driver's `VerifiedDocument`: a `Document` (an insertion-ordered
 * map) that can be locked once, at which point it stores the XXH64 hash of
 * its encoded element bytes.  The map operations it inherits are not
 * overridden, so changing the map after `lock()` leaves the hash as it was.
 *
 * lz4-java's `XXHash64.hash(..., seed 0)` is the parameter `H`; its Java
 * `long` result is the two's-complement reading of the unsigned value.
 */
module VerifiedDocumentModel {
  import opened Wrappers
  import opened Bytes
  import opened BsonTree
  import DocumentIntegrity

  datatype LockError = IllegalState   // IllegalStateException: lock() already called

  /** The Java `long` holding the unsigned 64-bit hash `u`. */
  function JavaLong(u: u64): int
  {
    Signed(u, 8)
  }

  /** What `lock()` hashes: the encoding from offset 4, `length - 5` bytes long. */
  function LockInput(entries: Doc): (r: seq<byte>)
  {
    var bson := DocBytes(entries);
    var elementLength := |bson| - 5;
    if elementLength > 0 then bson[4..4 + elementLength] else []
  }

  /** The hashed range is exactly the element list: no size header, no terminator. */
  lemma LockInputIsElements(entries: Doc)
    ensures LockInput(entries) == ElemsBytes(entries)
  {
    DocBytesLayout(entries);
  }

  /** An empty document hashes the empty input. */
  lemma EmptyDocumentHashesNothing()
    ensures LockInput([]) == []
  {
    LockInputIsElements([]);
  }

  class VerifiedDocument {
    /** The map's entries in insertion order. */
    var entries: Doc
    /** `integrityHash`; `None` is Java's null. */
    var integrityHash: Option<int>

    ghost predicate Valid()
      reads this
    {
      DistinctNames(entries)
    }

    /** `new VerifiedDocument()`: empty and unlocked. */
    constructor()
      ensures Valid() && entries == [] && integrityHash == None
    {
      entries := [];
      integrityHash := None;
    }

    /** `new VerifiedDocument(key, value)`. */
    constructor FromEntry(key: string, value: Val)
      ensures Valid() && entries == [Elem(key, value)] && integrityHash == None
    {
      entries := [Elem(key, value)];
      integrityHash := None;
    }

    /** `new VerifiedDocument(map)`: the map's entries in its iteration order. */
    constructor FromMap(m: Doc)
      requires DistinctNames(m)
      ensures Valid() && entries == m && integrityHash == None
    {
      entries := m;
      integrityHash := None;
    }

    /** `isLocked()`. */
    predicate IsLocked()
      reads this
    {
      integrityHash.Some?
    }

    /** The inherited `put`: the map changes, the hash does not. */
    method Put(key: string, value: Val)
      requires Valid()
      modifies this
      ensures Valid()
      ensures entries == BsonTree.Put(old(entries), key, value)
      ensures integrityHash == old(integrityHash)
    {
      PutKeepsDistinct(entries, key, value);
      entries := BsonTree.Put(entries, key, value);
    }

    /** The inherited `remove`: the map changes, the hash does not. */
    method Remove(key: string)
      requires Valid()
      modifies this
      ensures Valid()
      ensures entries == DocumentIntegrity.Without(old(entries), key)
      ensures integrityHash == old(integrityHash)
    {
      WithoutKeepsDistinct(entries, key);
      entries := DocumentIntegrity.Without(entries, key);
    }

    /**
     * `lock()`: the first call stores the hash of the element bytes; any
     * later call throws and leaves the hash alone.
     */
    method Lock(H: seq<byte> -> u64) returns (r: Result<(), LockError>)
      requires Valid()
      modifies this
      ensures Valid() && entries == old(entries)
      ensures old(integrityHash).Some? ==> r == Err(IllegalState) && integrityHash == old(integrityHash)
      ensures old(integrityHash).None? ==>
                r == Ok(()) && integrityHash == Some(JavaLong(H(ElemsBytes(entries))))
    {
      if integrityHash.Some? {
        return Err(IllegalState);
      }
      var bson := DocBytes(entries);
      var elementStart := 4;
      var elementLength := |bson| - 5;
      var hash: u64;
      if elementLength > 0 {
        hash := H(bson[elementStart..elementStart + elementLength]);
      } else {
        hash := H([]);
      }
      LockInputIsElements(entries);
      integrityHash := Some(JavaLong(hash));
      r := Ok(());
    }
  }

  /** Removing a name keeps the other names distinct. */
  lemma {:induction false} WithoutKeepsDistinct(d: Doc, name: string)
    requires DistinctNames(d)
    ensures DistinctNames(DocumentIntegrity.Without(d, name))
    decreases |d|
  {
    if |d| > 0 {
      var tail := d[1..];
      assert DistinctNames(tail) by {
        forall i, j | 0 <= i < j < |tail| ensures tail[i].name != tail[j].name {
          assert tail[i] == d[i + 1] && tail[j] == d[j + 1];
        }
      }
      WithoutKeepsDistinct(tail, name);
      if d[0].name != name {
        var rest := DocumentIntegrity.Without(tail, name);
        forall j | 0 <= j < |rest| ensures rest[j].name != d[0].name {
          DocumentIntegrity.WithoutMembers(tail, name, rest[j]);
          var q :| 0 <= q < |tail| && tail[q] == rest[j];
          assert d[q + 1] == rest[j];
        }
        var r := [d[0]] + rest;
        forall i, j | 0 <= i < j < |r| ensures r[i].name != r[j].name {
          if i > 0 {
            assert r[i] == rest[i - 1] && r[j] == rest[j - 1];
          } else {
            assert r[j] == rest[j - 1];
          }
        }
      }
    }
  }

  /**
   * A document locked on the client and sent with its hash first verifies on
   * the server: the server's hash-first path hashes the same element bytes.
   */
  lemma LockedDocumentVerifies(H: seq<byte> -> u64, entries: Doc)
    requires !HasField(entries, DocumentIntegrity.DOC_HASH_FIELD)
    ensures var sent := [Elem(DocumentIntegrity.DOC_HASH_FIELD, Long(JavaLong(H(ElemsBytes(entries)))))] + entries;
      DocumentIntegrity.VerifyDocumentIntegrity(H, sent) == DocumentIntegrity.OK
  {
    DocumentIntegrity.SealedDocumentVerifies(H, entries, entries);
  }

  /**
   * Against the content hash the integrity header promises, the element-bytes
   * seal of `lock()` verifies only when the hash agrees on the elements'
   * bytes and the whole encoding.
   */
  lemma LockedDocumentOnContentServer(H: seq<byte> -> u64, entries: Doc)
    requires !HasField(entries, DocumentIntegrity.DOC_HASH_FIELD)
    ensures var sent := [Elem(DocumentIntegrity.DOC_HASH_FIELD, Long(JavaLong(H(ElemsBytes(entries)))))] + entries;
      DocumentIntegrity.VerifyContentIntegrity(H, sent) == DocumentIntegrity.OK <==>
        H(ElemsBytes(entries)) == H(DocBytes(entries))
  {
    var seal := Elem(DocumentIntegrity.DOC_HASH_FIELD, Long(JavaLong(H(ElemsBytes(entries)))));
    DocumentIntegrity.SignedLongRoundTrip(H(ElemsBytes(entries)));
    DocumentIntegrity.ContentSealParts(H, seal, entries);
  }

  /** Locking twice: the second call fails and the first hash stays (no idempotence). */
  method LockTwice(H: seq<byte> -> u64, doc: VerifiedDocument) returns (first: Result<(), LockError>, second: Result<(), LockError>)
    requires doc.Valid() && !doc.IsLocked()
    modifies doc
    ensures first == Ok(()) && second == Err(IllegalState)
    ensures doc.integrityHash == Some(JavaLong(H(ElemsBytes(old(doc.entries)))))
  {
    first := doc.Lock(H);
    second := doc.Lock(H);
  }

  /** Changing the map after locking leaves the stored hash as it was. */
  method MutateAfterLock(H: seq<byte> -> u64, doc: VerifiedDocument, key: string, value: Val)
    returns (hashBefore: Option<int>, hashAfter: Option<int>)
    requires doc.Valid() && !doc.IsLocked()
    modifies doc
    ensures hashBefore == hashAfter == Some(JavaLong(H(ElemsBytes(old(doc.entries)))))
    ensures doc.entries == BsonTree.Put(old(doc.entries), key, value)
  {
    var _ := doc.Lock(H);
    hashBefore := doc.integrityHash;
    doc.Put(key, value);
    hashAfter := doc.integrityHash;
  }
}
