/**
 * `ShardKeyLock`: a per-(namespace, shard key) mutex taken from a global
 * table of reference-counted entries.  The table maps a namespace to a map
 * from shard-key value to entry; an entry lives while some holder uses it.
 * The mutexes themselves are not modelled: a holder records which entry it
 * locked.  Keys are compared structurally (`BSONObjLessThan` orders by
 * `woCompare`, which this model does not define).
 */
module ShardKeyLocks {
  import opened BsonTree

  /** A `LockEntry` behind its shared pointer: `id` names the allocation. */
  datatype Entry = Entry(id: nat, refCount: int)

  type LockMap = map<string, map<Doc, Entry>>

  predicate Stored(m: LockMap, ns: string, key: Doc)
  {
    ns in m && key in m[ns]
  }

  /** The reference count of the entry for (ns, key); 0 when there is none. */
  function RefCount(m: LockMap, ns: string, key: Doc): int
  {
    if Stored(m, ns, key) then m[ns][key].refCount else 0
  }

  /**
   * The table's invariant against `held`, the (namespace, key) of every
   * live, valid holder: the reference count of every pair is the number of
   * such holders, a stored entry has at least one, no namespace map is
   * empty, and every entry is an allocation older than `next`.
   */
  ghost predicate WellFormed(m: LockMap, held: multiset<(string, Doc)>, next: nat)
  {
    (forall ns :: ns in m ==> |m[ns]| > 0) &&
    (forall ns, k :: RefCount(m, ns, k) == held[(ns, k)]) &&
    (forall ns, k :: Stored(m, ns, k) ==> m[ns][k].refCount >= 1 && m[ns][k].id < next)
  }

  /** `getOrCreateLockEntry`: a new entry with refCount 1, or one more reference to the stored one. */
  function Acquired(m: LockMap, ns: string, key: Doc, newId: nat): LockMap
  {
    var coll := if ns in m then m[ns] else map[];
    if key in coll then m[ns := coll[key := coll[key].(refCount := coll[key].refCount + 1)]]
    else m[ns := coll[key := Entry(newId, 1)]]
  }

  /**
   * `releaseLockEntry`: one reference fewer; an entry at 0 is erased, and
   * so is a namespace map left empty.  An unknown namespace or key is ignored.
   */
  function Released(m: LockMap, ns: string, key: Doc): LockMap
  {
    if ns !in m || key !in m[ns] then m
    else
      var e := m[ns][key];
      if e.refCount - 1 == 0 then
        var coll := m[ns] - {key};
        if |coll| == 0 then m - {ns} else m[ns := coll]
      else m[ns := m[ns][key := e.(refCount := e.refCount - 1)]]
  }

  /** The entry a holder of (ns, key) locks after `getOrCreateLockEntry`. */
  function EntryAfterAcquire(m: LockMap, ns: string, key: Doc, newId: nat): nat
  {
    if Stored(m, ns, key) then m[ns][key].id else newId
  }

  /**
   * Acquiring stores an entry for (ns, key) with one more reference and
   * leaves every other pair's entry as it was.
   */
  lemma AcquireEffect(m: LockMap, ns: string, key: Doc, newId: nat, ns2: string, k2: Doc)
    ensures var m' := Acquired(m, ns, key, newId);
            Stored(m', ns2, k2) == (Stored(m, ns2, k2) || (ns2, k2) == (ns, key)) &&
            RefCount(m', ns2, k2) == RefCount(m, ns2, k2) + (if (ns2, k2) == (ns, key) then 1 else 0) &&
            ((ns2, k2) != (ns, key) && Stored(m, ns2, k2) ==> m'[ns2][k2] == m[ns2][k2]) &&
            ((ns2, k2) == (ns, key) ==> m'[ns][key].id == EntryAfterAcquire(m, ns, key, newId))
  {
  }

  /**
   * On a table whose entries are all older than `next`, the first acquire of
   * a pair allocates a new entry and later ones share it.
   */
  lemma AcquireSharesEntry(m: LockMap, held: multiset<(string, Doc)>, next: nat, ns: string, key: Doc)
    requires WellFormed(m, held, next)
    ensures var id := EntryAfterAcquire(m, ns, key, next);
            (held[(ns, key)] == 0 ==> id == next && forall ns2, k2 :: Stored(m, ns2, k2) ==> m[ns2][k2].id != id) &&
            (held[(ns, key)] > 0 ==> id == m[ns][key].id)
  {
    assert RefCount(m, ns, key) == held[(ns, key)];
  }

  /** Releasing takes one reference from a stored (ns, key) and leaves every other pair's entry as it was. */
  lemma ReleaseEffect(m: LockMap, ns: string, key: Doc, ns2: string, k2: Doc)
    requires forall n, k :: Stored(m, n, k) ==> m[n][k].refCount >= 1
    ensures var m' := Released(m, ns, key);
            RefCount(m', ns2, k2) == RefCount(m, ns2, k2) - (if (ns2, k2) == (ns, key) && Stored(m, ns, key) then 1 else 0) &&
            (Stored(m', ns2, k2) ==> Stored(m, ns2, k2) && m'[ns2][k2].id == m[ns2][k2].id) &&
            ((ns2, k2) != (ns, key) && Stored(m, ns2, k2) ==> Stored(m', ns2, k2) && m'[ns2][k2] == m[ns2][k2])
  {
    if Stored(m, ns, key) && m[ns][key].refCount - 1 == 0 && ns2 == ns && k2 != key && Stored(m, ns2, k2) {
      assert k2 in m[ns] - {key};
    }
  }

  /** Acquiring keeps the table well formed with one more holder of (ns, key). */
  lemma AcquirePreserves(m: LockMap, held: multiset<(string, Doc)>, next: nat, ns: string, key: Doc)
    requires WellFormed(m, held, next)
    ensures WellFormed(Acquired(m, ns, key, next), held + multiset{(ns, key)}, next + 1)
  {
    var m': LockMap := Acquired(m, ns, key, next);
    var held' := held + multiset{(ns, key)};
    forall ns2, k2 ensures RefCount(m', ns2, k2) == held'[(ns2, k2)] {
      AcquireEffect(m, ns, key, next, ns2, k2);
    }
    forall ns2, k2 | Stored(m', ns2, k2) ensures m'[ns2][k2].refCount >= 1 && m'[ns2][k2].id < next + 1 {
      AcquireEffect(m, ns, key, next, ns2, k2);
    }
  }

  /** Releasing (ns, key) keeps the table well formed with one holder of that pair fewer. */
  lemma ReleasePreserves(m: LockMap, held: multiset<(string, Doc)>, next: nat, ns: string, key: Doc)
    requires WellFormed(m, held, next)
    ensures WellFormed(Released(m, ns, key), held - multiset{(ns, key)}, next)
  {
    var m': LockMap := Released(m, ns, key);
    var held' := held - multiset{(ns, key)};
    assert RefCount(m, ns, key) == held[(ns, key)];
    forall ns2, k2 ensures RefCount(m', ns2, k2) == held'[(ns2, k2)] {
      ReleaseEffect(m, ns, key, ns2, k2);
    }
    forall ns2, k2 | Stored(m', ns2, k2) ensures m'[ns2][k2].refCount >= 1 && m'[ns2][k2].id < next {
      ReleaseEffect(m, ns, key, ns2, k2);
    }
  }

  /**
   * A release right after an acquire of the same (ns, key) gives back the
   * table it started from, provided a stored entry for the pair has a
   * reference and a stored namespace map is not empty (both part of
   * `WellFormed`).
   */
  lemma ReleaseUndoesAcquire(m: LockMap, ns: string, key: Doc, newId: nat)
    requires Stored(m, ns, key) ==> m[ns][key].refCount >= 1
    requires ns in m ==> |m[ns]| > 0
    ensures Released(Acquired(m, ns, key, newId), ns, key) == m
  {
    var m': LockMap := Acquired(m, ns, key, newId);
    if Stored(m, ns, key) {
      var e := m[ns][key];
      assert m' == m[ns := m[ns][key := e.(refCount := e.refCount + 1)]];
      assert m'[ns][key].refCount - 1 != 0;
      assert m'[ns][key].(refCount := m'[ns][key].refCount - 1) == e;
      assert m'[ns][key := e] == m[ns];
      assert Released(m', ns, key) == m[ns := m[ns]];
    } else if ns in m {
      assert m' == m[ns := m[ns][key := Entry(newId, 1)]];
      assert m'[ns] - {key} == m[ns];
      assert Released(m', ns, key) == m[ns := m[ns]];
    } else {
      assert m' == m[ns := map[key := Entry(newId, 1)]];
      assert m'[ns] - {key} == map[];
      assert Released(m', ns, key) == m' - {ns};
    }
  }

  /** Releasing a namespace or key the table does not hold changes nothing. */
  lemma ReleaseUnknown(m: LockMap, ns: string, key: Doc)
    requires !Stored(m, ns, key)
    ensures Released(m, ns, key) == m
  {
  }

  /** The body of `getOrCreateLockEntry` on the map it updates. */
  method AcquireIn(m0: LockMap, ns: string, key: Doc, newId: nat) returns (m: LockMap, id: nat)
    ensures m == Acquired(m0, ns, key, newId)
    ensures id == EntryAfterAcquire(m0, ns, key, newId)
  {
    m := m0;
    var coll := if ns in m then m[ns] else map[];
    if key !in coll {
      id := newId;
      m := m[ns := coll[key := Entry(newId, 1)]];
    } else {
      id := coll[key].id;
      m := m[ns := coll[key := coll[key].(refCount := coll[key].refCount + 1)]];
    }
  }

  /** The body of `releaseLockEntry` on the map it updates. */
  method ReleaseIn(m0: LockMap, ns: string, key: Doc) returns (m: LockMap)
    ensures m == Released(m0, ns, key)
  {
    m := m0;
    if ns in m && key in m[ns] {
      var coll := m[ns];
      var e := coll[key].(refCount := coll[key].refCount - 1);
      if e.refCount == 0 {
        coll := coll - {key};
        if |coll| == 0 {
          m := m - {ns};
        } else {
          m := m[ns := coll];
        }
      } else {
        m := m[ns := coll[key := e]];
      }
    }
  }

  /** The global table `_lockMap`. */
  class LockTable {
    var lockMap: LockMap
    var nextId: nat
    ghost var held: multiset<(string, Doc)>

    ghost predicate Valid()
      reads this
    {
      WellFormed(lockMap, held, nextId)
    }

    constructor()
      ensures Valid() && lockMap == map[] && held == multiset{}
    {
      lockMap := map[];
      nextId := 0;
      held := multiset{};
    }

    /** `getOrCreateLockEntry`: the entry locked for (ns, key). */
    method GetOrCreate(ns: string, key: Doc) returns (id: nat)
      requires Valid()
      modifies this
      ensures Valid()
      ensures id == EntryAfterAcquire(old(lockMap), ns, key, old(nextId))
      ensures lockMap == Acquired(old(lockMap), ns, key, old(nextId))
      ensures held == old(held) + multiset{(ns, key)}
    {
      AcquirePreserves(lockMap, held, nextId, ns, key);
      var m;
      m, id := AcquireIn(lockMap, ns, key, nextId);
      lockMap, nextId, held := m, nextId + 1, held + multiset{(ns, key)};
    }

    /** `releaseLockEntry`. */
    method Release(ns: string, key: Doc)
      requires Valid()
      modifies this
      ensures Valid()
      ensures lockMap == Released(old(lockMap), ns, key)
      ensures held == old(held) - multiset{(ns, key)}
      ensures nextId == old(nextId)
    {
      ReleasePreserves(lockMap, held, nextId, ns, key);
      var m := ReleaseIn(lockMap, ns, key);
      lockMap, held := m, held - multiset{(ns, key)};
    }
  }

  /** A `ShardKeyLock` holder: the entry it has locked, and whether it still owns it. */
  class ShardKeyLock {
    const table: LockTable
    var ns: string
    var key: Doc
    var entry: nat
    var valid: bool

    constructor Locked(table: LockTable, ns: string, key: Doc, entry: nat)
      ensures this.table == table && this.ns == ns && this.key == key && this.entry == entry && valid
    {
      this.table := table;
      this.ns, this.key, this.entry := ns, key, entry;
      valid := true;
    }

    /**
     * `acquire`: no lock for an empty shard key; otherwise a fresh holder of
     * the (possibly new) entry for (ns, key).
     */
    static method Acquire(table: LockTable, ns: string, key: Doc) returns (h: ShardKeyLock?)
      requires table.Valid()
      modifies table
      ensures table.Valid()
      ensures key == [] ==> h == null && table.lockMap == old(table.lockMap) && table.held == old(table.held)
      ensures key != [] ==>
                h != null && fresh(h) && h.table == table && h.valid && h.ns == ns && h.key == key &&
                h.entry == EntryAfterAcquire(old(table.lockMap), ns, key, old(table.nextId)) &&
                table.lockMap == Acquired(old(table.lockMap), ns, key, old(table.nextId)) &&
                table.held == old(table.held) + multiset{(ns, key)}
    {
      if key == [] {
        return null;
      }
      var id := table.GetOrCreate(ns, key);
      h := new ShardKeyLock.Locked(table, ns, key, id);
    }

    /** The destructor: a valid holder releases its entry. */
    method Destroy()
      requires table.Valid()
      modifies this, table
      ensures table.Valid() && !valid
      ensures old(valid) ==> table.lockMap == Released(old(table.lockMap), ns, key) &&
                             table.held == old(table.held) - multiset{(ns, key)}
      ensures !old(valid) ==> table.lockMap == old(table.lockMap) && table.held == old(table.held)
      ensures ns == old(ns) && key == old(key)
    {
      if valid {
        table.Release(ns, key);
      }
      valid := false;
    }

    /** The move constructor: the new holder takes over; the source is no longer valid. */
    constructor Move(other: ShardKeyLock)
      modifies other
      ensures table == other.table
      ensures ns == old(other.ns) && key == old(other.key) && entry == old(other.entry)
      ensures valid == old(other.valid) && !other.valid
    {
      table := other.table;
      ns, key, entry := other.ns, other.key, other.entry;
      valid := other.valid;
      new;
      other.valid := false;
    }

    /**
     * Move assignment: a holder first releases what it holds, then takes
     * over `other`'s entry, leaving `other` invalid.  Self-assignment does
     * nothing.
     */
    method MoveAssign(other: ShardKeyLock)
      requires table == other.table && table.Valid()
      modifies this, other, table
      ensures table.Valid()
      ensures this == other ==>
                valid == old(valid) && ns == old(ns) && key == old(key) && entry == old(entry) &&
                table.lockMap == old(table.lockMap) && table.held == old(table.held)
      ensures this != other ==>
                table.lockMap == (if old(valid) then Released(old(table.lockMap), old(ns), old(key))
                                  else old(table.lockMap)) &&
                table.held == (if old(valid) then old(table.held) - multiset{(old(ns), old(key))}
                               else old(table.held)) &&
                ns == old(other.ns) && key == old(other.key) && entry == old(other.entry) &&
                valid == old(other.valid) && !other.valid
    {
      if this != other {
        if valid {
          table.Release(ns, key);
        }
        ns, key, entry := other.ns, other.key, other.entry;
        valid := other.valid;
        other.valid := false;
      }
    }
  }
}
