/**
 * The RocksDB index writes that reuse the thread's buffers: the prefixed
 * key (the index's prefix followed by the `KeyString` encoding), the
 * standard index's insert and unindex, the unique index's insert with its
 * list of record ids per key, and the running storage-size estimate.
 *
 * The key encoding itself is computed by the caller and passed in, and so
 * is the outcome of `checkKeySize`, of `registerWrite` (false throws a
 * write conflict, modelled as that status) and of a failed read.  The
 * transaction's view of the index is a map from prefixed key to value.
 */
module RocksIndex {
  import opened Wrappers
  import opened Bytes
  import opened ErrorCodes
  import opened RocksBuffers

  /** One (record id, type bits) pair of a unique index's value. */
  datatype RecordEntry = RecordEntry(loc: int, typeBits: seq<byte>)

  function Locs(s: seq<RecordEntry>): (r: seq<int>)
    ensures |r| == |s| && forall i :: 0 <= i < |s| ==> r[i] == s[i].loc
  {
    if |s| == 0 then [] else [s[0].loc] + Locs(s[1..])
  }

  predicate StrictlySorted(s: seq<RecordEntry>)
  {
    forall i, j :: 0 <= i < j < |s| ==> s[i].loc < s[j].loc
  }

  predicate AllZeros(bits: seq<byte>)
  {
    forall i :: 0 <= i < |bits| ==> bits[i] == 0
  }

  /** Where the merge puts a new record id: before the first larger one, or at the end. */
  function InsertionPoint(s: seq<RecordEntry>, loc: int): (p: nat)
    ensures p <= |s|
    ensures forall j :: 0 <= j < p ==> s[j].loc <= loc
    ensures p < |s| ==> s[p].loc > loc
  {
    if |s| == 0 || s[0].loc > loc then 0 else 1 + InsertionPoint(s[1..], loc)
  }

  function InsertAt(s: seq<RecordEntry>, p: nat, e: RecordEntry): seq<RecordEntry>
    requires p <= |s|
  {
    s[..p] + [e] + s[p..]
  }

  /**
   * The loop of the unique insert over the stored list: it stops as soon
   * as `loc` is found, and otherwise copies the list, putting `loc` before
   * the first larger record id when there is one.
   */
  method MergeLoc(current: seq<RecordEntry>, loc: int, bits: seq<byte>)
    returns (already: bool, merged: seq<RecordEntry>, insertedLoc: bool)
    ensures already <==> loc in Locs(current)
    ensures !already ==> insertedLoc == (InsertionPoint(current, loc) < |current|)
    ensures !already && insertedLoc ==> merged == InsertAt(current, InsertionPoint(current, loc), RecordEntry(loc, bits))
    ensures !already && !insertedLoc ==> merged == current
  {
    ghost var p := InsertionPoint(current, loc);
    already, merged, insertedLoc := false, [], false;
    var i := 0;
    while i < |current|
      invariant 0 <= i <= |current|
      invariant forall j :: 0 <= j < i ==> current[j].loc != loc
      invariant insertedLoc == (p < i)
      invariant insertedLoc ==> merged == current[..p] + [RecordEntry(loc, bits)] + current[p..i]
      invariant !insertedLoc ==> merged == current[..i]
    {
      var locInIndex := current[i].loc;
      if loc == locInIndex {
        assert Locs(current)[i] == loc;
        return true, merged, insertedLoc;
      }
      if !insertedLoc && loc < locInIndex {
        merged := merged + [RecordEntry(loc, bits)];
        insertedLoc := true;
      }
      merged := merged + [current[i]];
      i := i + 1;
    }
    assert current[..i] == current && current[p..i] == current[p..];
    assert loc !in Locs(current) by {
      forall j | 0 <= j < |current| ensures Locs(current)[j] != loc {
      }
    }
  }

  /**
   * On a sorted list without `loc`, the merge keeps the list sorted and
   * adds exactly `loc` to its record ids.
   */
  lemma MergeKeepsSorted(s: seq<RecordEntry>, loc: int, bits: seq<byte>)
    requires StrictlySorted(s) && loc !in Locs(s)
    ensures var r := InsertAt(s, InsertionPoint(s, loc), RecordEntry(loc, bits));
            StrictlySorted(r) && |r| == |s| + 1 &&
            multiset(Locs(r)) == multiset(Locs(s)) + multiset{loc}
  {
    var p := InsertionPoint(s, loc);
    forall j | 0 <= j < p ensures s[j].loc < loc {
      assert Locs(s)[j] == s[j].loc;
    }
    InsertKeepsSorted(s, p, RecordEntry(loc, bits));
    InsertAddsLoc(s, p, RecordEntry(loc, bits));
  }

  lemma InsertKeepsSorted(s: seq<RecordEntry>, p: nat, e: RecordEntry)
    requires p <= |s| && StrictlySorted(s)
    requires forall j :: 0 <= j < p ==> s[j].loc < e.loc
    requires p < |s| ==> e.loc < s[p].loc
    ensures StrictlySorted(InsertAt(s, p, e))
  {
    var r := InsertAt(s, p, e);
    forall i, j | 0 <= i < j < |r| ensures r[i].loc < r[j].loc {
      if j < p {
        assert r[i] == s[i] && r[j] == s[j];
      } else if j == p {
        assert r[i] == s[i] && r[j] == e;
      } else if i == p {
        assert r[i] == e && r[j] == s[j - 1];
      } else if i < p {
        assert r[i] == s[i] && r[j] == s[j - 1];
      } else {
        assert r[i] == s[i - 1] && r[j] == s[j - 1];
      }
    }
  }

  lemma InsertAddsLoc(s: seq<RecordEntry>, p: nat, e: RecordEntry)
    requires p <= |s|
    ensures multiset(Locs(InsertAt(s, p, e))) == multiset(Locs(s)) + multiset{e.loc}
  {
    LocsOfInsert(s, p, e);
    LocsSplit(s, p);
    var a, b := Locs(s[..p]), Locs(s[p..]);
    assert multiset(a + [e.loc] + b) == multiset(a) + multiset{e.loc} + multiset(b);
    assert multiset(a + b) == multiset(a) + multiset(b);
  }

  lemma LocsOfInsert(s: seq<RecordEntry>, p: nat, e: RecordEntry)
    requires p <= |s|
    ensures Locs(InsertAt(s, p, e)) == Locs(s[..p]) + [e.loc] + Locs(s[p..])
  {
    LocsAppend(s[..p] + [e], s[p..]);
    LocsAppend(s[..p], [e]);
  }

  lemma LocsSplit(s: seq<RecordEntry>, p: nat)
    requires p <= |s|
    ensures Locs(s) == Locs(s[..p]) + Locs(s[p..])
  {
    assert s == s[..p] + s[p..];
    LocsAppend(s[..p], s[p..]);
  }

  lemma LocsAppend(a: seq<RecordEntry>, b: seq<RecordEntry>)
    ensures Locs(a + b) == Locs(a) + Locs(b)
  {
  }

  /** `_makePrefixedKey`: builds the key in the thread's buffer and returns a copy of it. */
  method MakePrefixedKey(mgr: IndexBufferManager, prefix: seq<byte>, encodedKey: KeyString) returns (key: seq<byte>)
    requires mgr.Valid()
    modifies mgr.prefixedKeyBuffer
    ensures mgr.Valid()
    ensures key == prefix + encodedKey.buffer && mgr.prefixedKeyBuffer.contents == key
  {
    var keyBuffer := mgr.GetPrefixedKeyBuffer();
    BuildPrefixedKey(prefix, encodedKey, keyBuffer);
    key := keyBuffer.contents;
  }

  /** `RocksStandardIndex`: one RocksDB key per (index key, record id); the value is the type bits. */
  class RocksStandardIndex {
    const prefix: seq<byte>
    const version: KeyStringVersion
    var storageSize: int
    var store: map<seq<byte>, seq<byte>>

    constructor(prefix: seq<byte>, version: KeyStringVersion)
      ensures this.prefix == prefix && this.version == version && storageSize == 0 && store == map[]
    {
      this.prefix, this.version := prefix, version;
      storageSize, store := 0, map[];
    }

    /**
     * `insert`, given the encoding of the key with its record id: a key
     * that fails the size check is refused before anything is touched;
     * otherwise the prefixed key is built in the thread's buffer, and
     * (unless registering the write conflicts) it is written with the type
     * bits, or an empty value when they are all zero, and the storage size
     * grows by its length.
     */
    method Insert(mgr: IndexBufferManager, keyStatus: Status, encoded: seq<byte>, bits: seq<byte>,
                  dupsAllowed: bool, registered: bool) returns (status: Status)
      requires dupsAllowed && mgr.Valid()
      modifies this, mgr, mgr.prefixedKeyBuffer, mgr.keyString
      ensures mgr.Valid()
      ensures keyStatus.Failure? ==>
                status == keyStatus && store == old(store) && storageSize == old(storageSize) &&
                mgr.prefixedKeyBuffer.contents == old(mgr.prefixedKeyBuffer.contents)
      ensures keyStatus.Success? ==> mgr.prefixedKeyBuffer.contents == prefix + encoded
      ensures keyStatus.Success? && !registered ==>
                status == Failure(WriteConflict) && store == old(store) && storageSize == old(storageSize)
      ensures keyStatus.Success? && registered ==>
                status == Success && storageSize == old(storageSize) + |prefix| + |encoded| &&
                store == old(store)[prefix + encoded := if AllZeros(bits) then [] else bits]
    {
      if keyStatus.Failure? {
        return keyStatus;
      }
      var encodedKey := mgr.GetKeyString(version);
      encodedKey.ResetToKey(encoded, bits);
      var prefixedKey := mgr.GetPrefixedKeyBuffer();
      BuildPrefixedKey(prefix, encodedKey, prefixedKey);
      if !registered {
        return Failure(WriteConflict);
      }
      var value := [];
      if !AllZeros(encodedKey.typeBits) {
        value := encodedKey.typeBits;
      }
      storageSize := storageSize + |prefixedKey.contents|;
      store := store[prefixedKey.contents := value];
      return Success;
    }

    /**
     * `unindex`: a key that fails the size check is ignored; otherwise the
     * prefixed key is deleted and the storage size shrinks by its length.
     */
    method Unindex(mgr: IndexBufferManager, keyStatus: Status, encoded: seq<byte>, bits: seq<byte>,
                   dupsAllowed: bool, registered: bool) returns (status: Status)
      requires dupsAllowed && mgr.Valid()
      modifies this, mgr, mgr.prefixedKeyBuffer, mgr.keyString
      ensures mgr.Valid()
      ensures keyStatus.Failure? ==> status == Success && store == old(store) && storageSize == old(storageSize)
      ensures keyStatus.Success? && !registered ==>
                status == Failure(WriteConflict) && store == old(store) && storageSize == old(storageSize)
      ensures keyStatus.Success? && registered ==>
                status == Success && storageSize == old(storageSize) - (|prefix| + |encoded|) &&
                store == old(store) - {prefix + encoded}
    {
      if keyStatus.Failure? {
        return Success;
      }
      var encodedKey := mgr.GetKeyString(version);
      encodedKey.ResetToKey(encoded, bits);
      var prefixedKey := mgr.GetPrefixedKeyBuffer();
      BuildPrefixedKey(prefix, encodedKey, prefixedKey);
      if !registered {
        return Failure(WriteConflict);
      }
      storageSize := storageSize - |prefixedKey.contents|;
      store := store - {prefixedKey.contents};
      return Success;
    }
  }

  type UniqueStore = map<seq<byte>, seq<RecordEntry>>

  /** Every stored list is non-empty and in increasing record-id order. */
  ghost predicate SortedLists(store: UniqueStore)
  {
    forall k :: k in store ==> |store[k]| > 0 && StrictlySorted(store[k])
  }

  /**
   * The unique insert once the current value of `k` has been read: an
   * absent key gets a one-record value (type bits left out when all zero),
   * a record id already listed is success without a write, another record
   * id is a duplicate key error unless duplicates are allowed, and then the
   * merged list is written.
   */
  function UniqueWrite(store: UniqueStore, k: seq<byte>, loc: int, bits: seq<byte>, dupsAllowed: bool): (Status, UniqueStore)
  {
    if k !in store then (Success, store[k := [RecordEntry(loc, if AllZeros(bits) then [] else bits)]])
    else if loc in Locs(store[k]) then (Success, store)
    else if !dupsAllowed then (Failure(DuplicateKey), store)
    else (Success, store[k := InsertAt(store[k], InsertionPoint(store[k], loc), RecordEntry(loc, bits))])
  }

  /** The tail of the unique insert, on the value it read. */
  method WriteUnique(store: UniqueStore, k: seq<byte>, loc: int, bits: seq<byte>, dupsAllowed: bool)
    returns (status: Status, written: UniqueStore)
    ensures (status, written) == UniqueWrite(store, k, loc, bits, dupsAllowed)
  {
    if k !in store {
      var value := if AllZeros(bits) then [] else bits;
      return Success, store[k := [RecordEntry(loc, value)]];
    }
    var already, valueVector, insertedLoc := MergeLoc(store[k], loc, bits);
    if already {
      return Success, store;
    }
    if !dupsAllowed {
      return Failure(DuplicateKey), store;
    }
    if !insertedLoc {
      valueVector := valueVector + [RecordEntry(loc, bits)];
      assert valueVector == InsertAt(store[k], |store[k]|, RecordEntry(loc, bits)) by {
        assert store[k][..|store[k]|] == store[k] && store[k][|store[k]|..] == [];
      }
    }
    return Success, store[k := valueVector];
  }

  /** The unique insert keeps every stored list sorted, and adds `loc` to the list of `k` only. */
  lemma UniqueWriteKeepsSorted(store: UniqueStore, k: seq<byte>, loc: int, bits: seq<byte>, dupsAllowed: bool)
    requires SortedLists(store)
    ensures var (status, written) := UniqueWrite(store, k, loc, bits, dupsAllowed);
            SortedLists(written) && k in written && (loc in Locs(written[k]) <==> status.Success?) &&
            (forall k2 :: k2 != k ==> (k2 in written <==> k2 in store) && (k2 in store ==> written[k2] == store[k2]))
  {
    if k !in store {
      var v := [RecordEntry(loc, if AllZeros(bits) then [] else bits)];
      assert Locs(v)[0] == loc;
      SortedListsUpdate(store, k, v);
    } else if loc !in Locs(store[k]) && dupsAllowed {
      var v := InsertAt(store[k], InsertionPoint(store[k], loc), RecordEntry(loc, bits));
      MergeKeepsSorted(store[k], loc, bits);
      assert loc in multiset(Locs(v));
      SortedListsUpdate(store, k, v);
    }
  }

  lemma SortedListsUpdate(store: UniqueStore, k: seq<byte>, v: seq<RecordEntry>)
    requires SortedLists(store) && |v| > 0 && StrictlySorted(v)
    ensures SortedLists(store[k := v])
  {
  }

  /** Inserting the same record id again changes nothing and succeeds. */
  lemma UniqueWriteIdempotent(store: UniqueStore, k: seq<byte>, loc: int, bits: seq<byte>, dupsAllowed: bool)
    requires SortedLists(store)
    requires UniqueWrite(store, k, loc, bits, dupsAllowed).0.Success?
    ensures var written := UniqueWrite(store, k, loc, bits, dupsAllowed).1;
            UniqueWrite(written, k, loc, bits, dupsAllowed) == (Success, written)
  {
    UniqueWriteKeepsSorted(store, k, loc, bits, dupsAllowed);
  }

  /** `RocksUniqueIndex`: one RocksDB key per index key; the value lists its record ids. */
  class RocksUniqueIndex {
    const prefix: seq<byte>
    const version: KeyStringVersion
    var storageSize: int
    var store: UniqueStore

    ghost predicate Valid()
      reads this
    {
      SortedLists(store)
    }

    constructor(prefix: seq<byte>, version: KeyStringVersion)
      ensures Valid()
      ensures this.prefix == prefix && this.version == version && storageSize == 0 && store == map[]
    {
      this.prefix, this.version := prefix, version;
      storageSize, store := 0, map[];
    }

    /**
     * `insert`, given the encoding of the key without its record id.  Past
     * the size check and the write registration the storage size grows by
     * the prefixed key's length whatever follows; a read error is returned,
     * and otherwise the write is `UniqueWrite` on the prefixed key.
     */
    method Insert(mgr: IndexBufferManager, keyStatus: Status, encoded: seq<byte>, bits: seq<byte>, loc: int,
                  dupsAllowed: bool, registered: bool, readFailure: Option<ErrorCode>) returns (status: Status)
      requires Valid() && mgr.Valid()
      modifies this, mgr, mgr.prefixedKeyBuffer, mgr.keyString
      ensures Valid() && mgr.Valid()
      ensures keyStatus.Failure? ==> status == keyStatus && store == old(store) && storageSize == old(storageSize)
      ensures keyStatus.Success? && !registered ==>
                status == Failure(WriteConflict) && store == old(store) && storageSize == old(storageSize)
      ensures keyStatus.Success? && registered ==> storageSize == old(storageSize) + |prefix| + |encoded|
      ensures keyStatus.Success? && registered && readFailure.Some? ==>
                status == Failure(readFailure.value) && store == old(store)
      ensures keyStatus.Success? && registered && readFailure.None? ==>
                (status, store) == UniqueWrite(old(store), prefix + encoded, loc, bits, dupsAllowed)
    {
      if keyStatus.Failure? {
        return keyStatus;
      }
      var encodedKey := mgr.GetKeyString(version);
      encodedKey.ResetToKey(encoded, bits);
      var prefixedKey := mgr.GetPrefixedKeyBuffer();
      BuildPrefixedKey(prefix, encodedKey, prefixedKey);
      if !registered {
        return Failure(WriteConflict);
      }
      var k := prefixedKey.contents;
      storageSize := storageSize + |k|;
      if readFailure.Some? {
        return Failure(readFailure.value);
      }
      UniqueWriteKeepsSorted(store, k, loc, encodedKey.typeBits, dupsAllowed);
      status, store := WriteUnique(store, k, loc, encodedKey.typeBits, dupsAllowed);
    }
  }
}
