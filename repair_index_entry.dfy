/**
 * The `repairIndexEntry` command: inserts an index entry missing for a
 * document, or removes an orphan entry whose document is gone.  The command
 * object is parsed and validated, the document is located by `_id` or by
 * `recordId`, and the insert or remove is decided from the keys the index
 * generates for the document and from a cursor over the index.  A dry run
 * reports the entry it would write.
 *
 * The catalog, the `_id` index, the collection's documents and the target
 * index are an `Env` value; the index's key generator (`getKeys`) is a
 * function parameter.  Keys are compared structurally.
 */
module RepairIndexEntry {
  import opened Wrappers
  import opened Bytes
  import opened BsonTree
  import ShardKeyLocks

  const AMBIGUOUS_MATCH := 50000
  const INDEX_ENTRY_ALREADY_EXISTS := 50001
  const INDEX_ENTRY_NOT_FOUND := 50002
  const DOCUMENT_STILL_EXISTS := 50003

  /** `RecordId::isNormal`: strictly between the null id and the maximum. */
  predicate IsNormal(rid: int)
  {
    0 < rid < INT64_MAX
  }

  datatype IndexEntry = IndexEntry(key: Doc, loc: int)

  /** Why the command returns false; each corresponds to one `errmsg`. */
  datatype Reason =
    | NoCollectionName
    | BadAction
    | NoIndexName
    | NoLocation
    | NoRecordIdForRemove
    | NotPrimary
    | DatabaseNotFound
    | CollectionNotFound
    | IndexNotFound
    | IdIndexNotFound
    | DocumentNotFoundById
    | NoDocument
    | NoKeys
    | AmbiguousKeys
    | KeyNotGenerated
    | EntryAlreadyExists
    | DocumentStillExists
    | EntryNotFoundAtRecordId
    | AmbiguousEntries(matchCount: nat)
    | EntryNotFound
    | CannotDetermineKey

  /** The `code` field the command appends to its reply, when it appends one. */
  function Code(r: Reason): Option<int>
  {
    match r
    case AmbiguousKeys => Some(AMBIGUOUS_MATCH)
    case AmbiguousEntries(_) => Some(AMBIGUOUS_MATCH)
    case EntryAlreadyExists => Some(INDEX_ENTRY_ALREADY_EXISTS)
    case EntryNotFoundAtRecordId => Some(INDEX_ENTRY_NOT_FOUND)
    case EntryNotFound => Some(INDEX_ENTRY_NOT_FOUND)
    case DocumentStillExists => Some(DOCUMENT_STILL_EXISTS)
    case _ => None
  }

  datatype Outcome =
    | Refused(reason: Reason)
    | WouldInsert(key: Doc, loc: int)           // dry run
    | Inserted(keys: seq<Doc>, loc: int)        // every key of the document, at loc
    | WouldRemove(key: Doc, loc: int)           // dry run
    | Removed(key: Doc, loc: int)

  predicate Writes(o: Outcome)
  {
    o.Inserted? || o.Removed?
  }

  // ---------------------------------------------------------------------
  // Parsing the command object
  // ---------------------------------------------------------------------

  datatype Request = Request(collName: string, isInsert: bool, indexName: string, id: Option<Val>,
                             shardKey: Doc, indexKey: Doc, recordId: Option<int>, dryRun: bool)

  /** `firstElement().valuestrsafe()`. */
  function FirstString(cmd: Doc): string
  {
    if |cmd| > 0 && cmd[0].val.Str? then cmd[0].val.s else ""
  }

  /** `getStringField`: the string value, or "" for a missing or non-string field. */
  function StringField(cmd: Doc, name: string): string
  {
    match GetField(cmd, name)
    case Some(Elem(_, Str(s))) => s
    case _ => ""
  }

  /** `getBoolField`: the boolean value, or false for a missing or non-boolean field. */
  function BoolField(cmd: Doc, name: string): bool
  {
    match GetField(cmd, name)
    case Some(Elem(_, Bool(b))) => b
    case _ => false
  }

  const TWO_52: nat := 0x10_0000_0000_0000
  const TWO_63: nat := 0x8000_0000_0000_0000

  function Pow2(k: nat): (r: nat)
    ensures r >= 1
  {
    if k == 0 then 1 else 2 * Pow2(k - 1)
  }

  /** The fields of an IEEE-754 double given by its bit pattern (taken modulo 2^64). */
  function SignBit(bits: int): nat { (bits % TWO_64) / TWO_63 }
  function Exponent(bits: int): nat { ((bits % TWO_64) / TWO_52) % 2048 }
  function Fraction(bits: int): nat { (bits % TWO_64) % TWO_52 }

  /** The integer significand: the fraction with the hidden bit of a normal number. */
  function Significand(bits: int): nat
  {
    if Exponent(bits) == 0 then Fraction(bits) else Fraction(bits) + TWO_52
  }

  /** `n * d` and `n / d` of naturals, with the facts the truncation needs. */
  lemma ScaleFacts(n: nat, d: nat)
    requires d >= 1
    ensures n * d >= 0 && n / d >= 0
    ensures (n / d) * d <= n < (n / d + 1) * d
  {
    var q, r := n / d, n % d;
    assert n == d * q + r && 0 <= r < d;
    assert (q + 1) * d == q * d + d;
  }

  /** The magnitude of a finite double, truncated to an integer. */
  function TruncatedMagnitude(bits: int): nat
  {
    var e := Exponent(bits);
    var sig := Significand(bits);
    if e >= 1075 then
      var p := Pow2(e - 1075);
      ScaleFacts(sig, p);
      sig * p
    else
      var p := Pow2(1075 - e);
      ScaleFacts(sig, p);
      sig / p
  }

  /**
   * `safeNumberLong` on a double: NaN reads as 0, values beyond the 64-bit
   * range saturate, and everything else is truncated toward zero.
   */
  function DoubleToLong(bits: int): (r: int)
    ensures INT64_MIN <= r <= INT64_MAX
    ensures Exponent(bits) == 2047 && Fraction(bits) != 0 ==> r == 0
    ensures Exponent(bits) == 2047 && Fraction(bits) == 0 ==>
              r == (if SignBit(bits) == 0 then INT64_MAX else INT64_MIN)
    ensures Exponent(bits) < 2047 && SignBit(bits) == 0 ==> r >= 0
    ensures Exponent(bits) < 2047 && SignBit(bits) == 1 ==> r <= 0
  {
    if Exponent(bits) == 2047 then
      if Fraction(bits) != 0 then 0
      else if SignBit(bits) == 0 then INT64_MAX else INT64_MIN
    else
      var t: int := TruncatedMagnitude(bits);
      if SignBit(bits) == 0 then (if t >= TWO_63 then INT64_MAX else t)
      else (if t >= TWO_63 then INT64_MIN else -t)
  }

  /**
   * Inside the 64-bit range the result is the double truncated toward zero:
   * its magnitude is the largest integer whose scaled value does not exceed
   * the significand.
   */
  lemma DoubleTruncatesTowardZero(bits: int)
    requires Exponent(bits) < 1075 && TruncatedMagnitude(bits) < TWO_63
    ensures var r := DoubleToLong(bits);
            var scale := Pow2(1075 - Exponent(bits));
            var q := if r < 0 then -r else r;
            q * scale <= Significand(bits) < (q + 1) * scale
  {
    var scale := Pow2(1075 - Exponent(bits));
    var sig := Significand(bits);
    ScaleFacts(sig, scale);
    assert TruncatedMagnitude(bits) == sig / scale;
  }

  /** `safeNumberLong`: integral values as they are, doubles converted, anything else 0. */
  function SafeNumberLong(v: Val): (r: int)
    ensures v.Int32? ==> r == v.i
    ensures v.Long? ==> r == v.l
    ensures v.Double? ==> r == DoubleToLong(v.bits) && INT64_MIN <= r <= INT64_MAX
    ensures !v.Int32? && !v.Long? && !v.Double? ==> r == 0
  {
    match v
    case Int32(i) => i
    case Long(l) => l
    case Double(bits) => DoubleToLong(bits)
    case _ => 0
  }

  /** The argument checks at the top of `run`, in their order. */
  function Parse(cmd: Doc): Result<Request, Reason>
  {
    var collName := FirstString(cmd);
    var action := StringField(cmd, "action");
    var indexName := StringField(cmd, "indexName");
    var idElem := GetField(cmd, "_id");
    var indexKey := GetObjectField(cmd, "indexKey");
    var hasRecordId := HasField(cmd, "recordId");
    if collName == "" then Err(NoCollectionName)
    else if action != "insert" && action != "remove" then Err(BadAction)
    else if indexName == "" then Err(NoIndexName)
    else if idElem.None? && indexKey == [] then Err(NoLocation)
    else if action != "insert" && indexKey != [] && idElem.None? && !hasRecordId then Err(NoRecordIdForRemove)
    else
      Ok(Request(collName, action == "insert", indexName,
                 if idElem.Some? then Some(idElem.value.val) else None,
                 GetObjectField(cmd, "shardKey"), indexKey,
                 if hasRecordId then Some(SafeNumberLong(GetField(cmd, "recordId").value.val)) else None,
                 BoolField(cmd, "dryRun")))
  }

  /**
   * An accepted command names a collection and an index, has the action
   * "insert" or "remove", locates its entry by `_id` or `indexKey`, and a
   * remove by `indexKey` alone also carries a `recordId`.
   */
  lemma ParseAccepted(cmd: Doc)
    requires Parse(cmd).Ok?
    ensures var req := Parse(cmd).value;
            req.collName == FirstString(cmd) != "" && req.indexName == StringField(cmd, "indexName") != "" &&
            req.isInsert == (StringField(cmd, "action") == "insert") &&
            (req.isInsert || StringField(cmd, "action") == "remove") &&
            (req.id.Some? || req.indexKey != []) &&
            (!req.isInsert && req.indexKey != [] && req.id.None? ==> req.recordId.Some?) &&
            req.dryRun == BoolField(cmd, "dryRun")
  {
  }

  /**
   * The checks are made in order: a command is rejected for the first
   * requirement it misses, and accepted exactly when it misses none.
   */
  lemma ParseRejectsFirstMiss(cmd: Doc)
    ensures var action := StringField(cmd, "action");
            var noLocation := !HasField(cmd, "_id") && GetObjectField(cmd, "indexKey") == [];
            var needsRecordId := action == "remove" && GetObjectField(cmd, "indexKey") != [] &&
                                 !HasField(cmd, "_id") && !HasField(cmd, "recordId");
            (FirstString(cmd) == "" <==> Parse(cmd) == Err(NoCollectionName)) &&
            (FirstString(cmd) != "" && action != "insert" && action != "remove" <==> Parse(cmd) == Err(BadAction)) &&
            (Parse(cmd) == Err(NoIndexName) <==>
               FirstString(cmd) != "" && (action == "insert" || action == "remove") && StringField(cmd, "indexName") == "") &&
            (Parse(cmd) == Err(NoLocation) <==>
               FirstString(cmd) != "" && (action == "insert" || action == "remove") && StringField(cmd, "indexName") != "" &&
               noLocation) &&
            (Parse(cmd) == Err(NoRecordIdForRemove) <==>
               FirstString(cmd) != "" && StringField(cmd, "indexName") != "" && needsRecordId) &&
            (Parse(cmd).Ok? <==>
               FirstString(cmd) != "" && (action == "insert" || action == "remove") &&
               StringField(cmd, "indexName") != "" && !noLocation && !needsRecordId)
  {
  }

  // ---------------------------------------------------------------------
  // The collection, its indexes and the cursor
  // ---------------------------------------------------------------------

  /**
   * What the command sees of the server: whether this node is primary,
   * whether the database and collection exist, the collection's index names
   * and whether it has an `_id` index, the `_id` index as a map from `_id`
   * value to record id, the documents by record id, the target index's
   * entries in index order, and the target index's key generator.
   */
  datatype Env = Env(primary: bool, hasDatabase: bool, hasCollection: bool, indexNames: set<string>,
                     hasIdIndex: bool, ids: map<Val, int>, docs: map<int, Doc>,
                     index: seq<IndexEntry>, keysOf: Doc -> seq<Doc>)

  predicate Present(index: seq<IndexEntry>, key: Doc, loc: int)
  {
    IndexEntry(key, loc) in index
  }

  /** A cursor positioned at `key` with an inclusive end position at `key`: the entries under `key`, in index order. */
  function Cursor(index: seq<IndexEntry>, key: Doc): (r: seq<IndexEntry>)
    ensures |r| <= |index|
    ensures forall i :: 0 <= i < |r| ==> r[i].key == key
    ensures forall loc :: IndexEntry(key, loc) in r <==> Present(index, key, loc)
  {
    if |index| == 0 then []
    else (if index[0].key == key then [index[0]] else []) + Cursor(index[1..], key)
  }

  /** The length of the leading run of entries under `key`. */
  function KeyRun(s: seq<IndexEntry>, key: Doc): (n: nat)
    ensures n <= |s|
    ensures forall i :: 0 <= i < n ==> s[i].key == key
    ensures n < |s| ==> s[n].key != key
  {
    if |s| == 0 || s[0].key != key then 0 else 1 + KeyRun(s[1..], key)
  }

  /** The entries `doInsert`'s scan inspects: the first, then those after it while they stay under `key`. */
  function Inspected(s: seq<IndexEntry>, key: Doc): (n: nat)
    ensures n <= |s|
  {
    if |s| == 0 then 0 else 1 + KeyRun(s[1..], key)
  }

  /** The position of the first entry at `loc`, or |s|. */
  function LocIndex(s: seq<IndexEntry>, loc: int): (p: nat)
    ensures p <= |s|
    ensures forall j :: 0 <= j < p ==> s[j].loc != loc
    ensures p < |s| ==> s[p].loc == loc
  {
    if |s| == 0 then 0 else if s[0].loc == loc then 0 else 1 + LocIndex(s[1..], loc)
  }

  lemma KeyRunOfCursor(s: seq<IndexEntry>, key: Doc)
    requires forall i :: 0 <= i < |s| ==> s[i].key == key
    ensures KeyRun(s, key) == |s| && Inspected(s, key) == |s|
  {
    if |s| > 0 {
      assert KeyRun(s[1..], key) == |s| - 1;
    }
  }

  /** `doInsert`'s loop over the generated keys: whether `indexKey` is one of them. */
  method FindKey(keys: seq<Doc>, indexKey: Doc) returns (found: bool, k: Doc)
    ensures found <==> indexKey in keys
    ensures found ==> k == indexKey
  {
    found, k := false, [];
    var i := 0;
    while i < |keys|
      invariant 0 <= i <= |keys|
      invariant indexKey !in keys[..i]
    {
      if keys[i] == indexKey {
        return true, keys[i];
      }
      i := i + 1;
    }
    assert keys[..i] == keys;
  }

  /**
   * `doInsert`'s scan for an entry already at `recordId`: it inspects the
   * entry the cursor lands on and then moves on while the keys stay equal.
   */
  method ScanForLoc(entries: seq<IndexEntry>, key: Doc, recordId: int) returns (found: bool)
    ensures found <==> exists j :: 0 <= j < Inspected(entries, key) && entries[j].loc == recordId
  {
    found := false;
    var i := 0;
    while i < |entries|
      invariant 0 <= i <= Inspected(entries, key)
      invariant i < |entries| ==> i < Inspected(entries, key)
      invariant forall j :: 0 <= j < i ==> entries[j].loc != recordId
    {
      if entries[i].loc == recordId {
        return true;
      }
      i := i + 1;
      if i < |entries| && entries[i].key != key {
        KeyRunStops(entries[1..], key, i - 1);
        break;
      }
      if i < |entries| {
        KeyRunExtends(entries[1..], key, i - 1);
      }
    }
  }

  /** A run that reaches position m - 1 and continues at m is longer than m. */
  lemma KeyRunExtends(s: seq<IndexEntry>, key: Doc, m: nat)
    requires m < |s| && s[m].key == key && m <= KeyRun(s, key)
    ensures m < KeyRun(s, key)
  {
  }

  /** A run that reaches position m - 1 and breaks at m has length m. */
  lemma KeyRunStops(s: seq<IndexEntry>, key: Doc, m: nat)
    requires m < |s| && s[m].key != key && m <= KeyRun(s, key)
    ensures m == KeyRun(s, key)
  {
  }

  /**
   * `doRemove`'s scan: it counts the entries under `key`, stopping at the
   * first one at `recordId`, and remembers the first entry's record id.
   */
  method CountMatches(entries: seq<IndexEntry>, key: Doc, recordId: int)
    returns (found: bool, matchCount: nat, firstMatch: int)
    ensures var n := KeyRun(entries, key);
            var p := LocIndex(entries[..n], recordId);
            found == (p < n) && matchCount == (if found then p + 1 else n) &&
            firstMatch == (if matchCount >= 1 then entries[0].loc else 0)
  {
    found, matchCount, firstMatch := false, 0, 0;
    ghost var n := KeyRun(entries, key);
    while matchCount < |entries| && entries[matchCount].key == key
      invariant matchCount <= n
      invariant forall j :: 0 <= j < matchCount ==> entries[j].loc != recordId
      invariant firstMatch == (if matchCount >= 1 then entries[0].loc else 0)
    {
      matchCount := matchCount + 1;
      if matchCount == 1 {
        firstMatch := entries[matchCount - 1].loc;
      }
      if entries[matchCount - 1].loc == recordId {
        found := true;
        assert LocIndex(entries[..n], recordId) == matchCount - 1 by {
          assert entries[..n][matchCount - 1].loc == recordId;
          assert forall j :: 0 <= j < matchCount - 1 ==> entries[..n][j].loc != recordId;
        }
        return;
      }
    }
    assert LocIndex(entries[..n], recordId) == n by {
      assert forall j :: 0 <= j < n ==> entries[..n][j].loc != recordId;
    }
  }

  // ---------------------------------------------------------------------
  // Locating the document, and the two actions
  // ---------------------------------------------------------------------

  datatype Location = Location(doc: Option<Doc>, recordId: int)

  function FindDoc(env: Env, rid: int): Option<Doc>
  {
    if rid in env.docs then Some(env.docs[rid]) else None
  }

  /**
   * The document and record id the command works on: by `_id` through the
   * `_id` index, else by the given `recordId`, else none at the null id.
   * An insert whose `_id` is not found is refused; a remove goes on
   * without a document.
   */
  function Locate(req: Request, env: Env): Result<Location, Reason>
  {
    if req.id.Some? then
      if !env.hasIdIndex then Err(IdIndexNotFound)
      else
        var rid := if req.id.value in env.ids then env.ids[req.id.value] else 0;
        if !IsNormal(rid) then (if req.isInsert then Err(DocumentNotFoundById) else Ok(Location(None, rid)))
        else Ok(Location(FindDoc(env, rid), rid))
    else if req.recordId.Some? then Ok(Location(FindDoc(env, req.recordId.value), req.recordId.value))
    else Ok(Location(None, 0))
  }

  /** What `doInsert` decides. */
  function InsertOutcome(at: Location, indexKey: Doc, dryRun: bool, env: Env): Outcome
  {
    if at.doc.None? then Refused(NoDocument)
    else
      var keys := env.keysOf(at.doc.value);
      if |keys| == 0 then Refused(NoKeys)
      else if |keys| > 1 && indexKey == [] then Refused(AmbiguousKeys)
      else if indexKey != [] && indexKey !in keys then Refused(KeyNotGenerated)
      else
        var key := if indexKey != [] then indexKey else keys[0];
        if Present(env.index, key, at.recordId) then Refused(EntryAlreadyExists)
        else if dryRun then WouldInsert(key, at.recordId)
        else Inserted(keys, at.recordId)
  }

  function Finish(key: Doc, loc: int, dryRun: bool): Outcome
  {
    if dryRun then WouldRemove(key, loc) else Removed(key, loc)
  }

  /**
   * The `matchCount` of `doRemove`'s scan over the entries under a key:
   * all of them, or up to and including the one at `rid`.
   */
  function MatchCount(entries: seq<IndexEntry>, rid: int): nat
  {
    var p := LocIndex(entries, rid);
    if p < |entries| then p + 1 else |entries|
  }

  /** What `doRemove` decides. */
  function RemoveOutcome(at: Location, indexKey: Doc, dryRun: bool, env: Env): Outcome
  {
    if indexKey != [] && at.doc.Some? then Refused(DocumentStillExists)
    else if indexKey != [] then
      var entries := Cursor(env.index, indexKey);
      var found := Present(env.index, indexKey, at.recordId);
      var count := MatchCount(entries, at.recordId);
      if !found && IsNormal(at.recordId) then Refused(EntryNotFoundAtRecordId)
      else if !IsNormal(at.recordId) && count > 1 then Refused(AmbiguousEntries(count))
      else if count == 0 then Refused(EntryNotFound)
      else Finish(indexKey, if !IsNormal(at.recordId) && count == 1 then entries[0].loc else at.recordId, dryRun)
    else if at.doc.Some? then
      var keys := env.keysOf(at.doc.value);
      if |keys| == 0 then Refused(NoKeys)
      else if |keys| > 1 then Refused(AmbiguousKeys)
      else Finish(keys[0], at.recordId, dryRun)
    else Refused(CannotDetermineKey)
  }

  /** `doInsert`. */
  method DoInsert(at: Location, indexKey: Doc, dryRun: bool, env: Env) returns (out: Outcome)
    ensures out == InsertOutcome(at, indexKey, dryRun, env)
  {
    if at.doc.None? {
      return Refused(NoDocument);
    }
    var keys := env.keysOf(at.doc.value);
    if |keys| == 0 {
      return Refused(NoKeys);
    }
    if |keys| > 1 && indexKey == [] {
      return Refused(AmbiguousKeys);
    }
    var key;
    if indexKey != [] {
      var found;
      found, key := FindKey(keys, indexKey);
      if !found {
        return Refused(KeyNotGenerated);
      }
    } else {
      key := keys[0];
    }
    var entries := Cursor(env.index, key);
    KeyRunOfCursor(entries, key);
    var exists_ := ScanForLoc(entries, key, at.recordId);
    if exists_ {
      assert IndexEntry(key, at.recordId) in entries;
      return Refused(EntryAlreadyExists);
    }
    assert !Present(env.index, key, at.recordId) by {
      forall j | 0 <= j < |entries| ensures entries[j] != IndexEntry(key, at.recordId) {
      }
    }
    if dryRun {
      return WouldInsert(key, at.recordId);
    }
    return Inserted(keys, at.recordId);
  }

  /** `doRemove`. */
  method DoRemove(at: Location, indexKey: Doc, dryRun: bool, env: Env) returns (out: Outcome)
    ensures out == RemoveOutcome(at, indexKey, dryRun, env)
  {
    if indexKey != [] && at.doc.Some? {
      return Refused(DocumentStillExists);
    }
    var key := [];
    var loc := at.recordId;
    if indexKey != [] {
      key := indexKey;
      var entries := Cursor(env.index, indexKey);
      KeyRunOfCursor(entries, indexKey);
      assert entries[..|entries|] == entries;
      var found, matchCount, firstMatch := CountMatches(entries, indexKey, at.recordId);
      assert found <==> Present(env.index, indexKey, at.recordId) by {
        if Present(env.index, indexKey, at.recordId) {
          assert IndexEntry(indexKey, at.recordId) in entries;
          var j :| 0 <= j < |entries| && entries[j] == IndexEntry(indexKey, at.recordId);
        }
      }
      if !found && IsNormal(at.recordId) {
        return Refused(EntryNotFoundAtRecordId);
      }
      if !IsNormal(at.recordId) && matchCount > 1 {
        return Refused(AmbiguousEntries(matchCount));
      }
      if !IsNormal(at.recordId) && matchCount == 1 {
        loc := firstMatch;
      }
      if matchCount == 0 {
        return Refused(EntryNotFound);
      }
    } else if at.doc.Some? {
      var keys := env.keysOf(at.doc.value);
      if |keys| == 0 {
        return Refused(NoKeys);
      }
      if |keys| > 1 {
        return Refused(AmbiguousKeys);
      }
      key := keys[0];
    } else {
      return Refused(CannotDetermineKey);
    }
    if dryRun {
      return WouldRemove(key, loc);
    }
    return Removed(key, loc);
  }

  // ---------------------------------------------------------------------
  // The command
  // ---------------------------------------------------------------------

  /** Everything `run` checks before it takes the shard-key lock. */
  function Admit(cmd: Doc, env: Env): Result<Request, Reason>
  {
    match Parse(cmd)
    case Err(r) => Err(r)
    case Ok(req) =>
      if !env.primary then Err(NotPrimary)
      else if !env.hasDatabase then Err(DatabaseNotFound)
      else if !env.hasCollection then Err(CollectionNotFound)
      else if req.indexName !in env.indexNames then Err(IndexNotFound)
      else Ok(req)
  }

  /** The reply of `run`, as a function of the command and the server state. */
  function RunOutcome(cmd: Doc, env: Env): Outcome
  {
    match Admit(cmd, env)
    case Err(r) => Refused(r)
    case Ok(req) =>
      match Locate(req, env)
      case Err(r) => Refused(r)
      case Ok(at) =>
        if req.isInsert then InsertOutcome(at, req.indexKey, req.dryRun, env)
        else RemoveOutcome(at, req.indexKey, req.dryRun, env)
  }

  /**
   * `run`: validates, takes the shard-key lock on `dbname.collName` when a
   * `shardKey` is given, performs the action, and lets the lock go on
   * return, which leaves the lock table as it found it.
   */
  method Run(dbname: string, cmd: Doc, env: Env, table: ShardKeyLocks.LockTable) returns (out: Outcome)
    requires table.Valid()
    modifies table
    ensures table.Valid()
    ensures out == RunOutcome(cmd, env)
    ensures table.lockMap == old(table.lockMap) && table.held == old(table.held)
  {
    var admitted := Admit(cmd, env);
    if admitted.Err? {
      return Refused(admitted.error);
    }
    var req := admitted.value;
    var lock: ShardKeyLocks.ShardKeyLock? := null;
    if req.shardKey != [] {
      ShardKeyLocks.ReleaseUndoesAcquire(table.lockMap, dbname + "." + req.collName, req.shardKey, table.nextId);
      lock := ShardKeyLocks.ShardKeyLock.Acquire(table, dbname + "." + req.collName, req.shardKey);
    }
    var located := Locate(req, env);
    if located.Err? {
      out := Refused(located.error);
    } else if req.isInsert {
      out := DoInsert(located.value, req.indexKey, req.dryRun, env);
    } else {
      out := DoRemove(located.value, req.indexKey, req.dryRun, env);
    }
    if lock != null {
      lock.Destroy();
    }
  }

  // ---------------------------------------------------------------------
  // What the command promises
  // ---------------------------------------------------------------------

  /**
   * An insert (actual or dry run) names a key the document generates and a
   * record id with no entry under that key, so it never duplicates an
   * entry; a refusal for an existing entry means the entry is there.
   */
  lemma InsertOnlyMissing(at: Location, indexKey: Doc, dryRun: bool, env: Env)
    ensures var out := InsertOutcome(at, indexKey, dryRun, env);
            (out.WouldInsert? ==> at.doc.Some? && out.key in env.keysOf(at.doc.value) &&
                                  !Present(env.index, out.key, out.loc) && out.loc == at.recordId) &&
            (out.Inserted? ==> at.doc.Some? && out.keys == env.keysOf(at.doc.value) && out.loc == at.recordId &&
                               exists k :: k in out.keys && !Present(env.index, k, out.loc)) &&
            (out == Refused(EntryAlreadyExists) ==>
               at.doc.Some? && exists k :: k in env.keysOf(at.doc.value) && Present(env.index, k, at.recordId))
  {
    var out := InsertOutcome(at, indexKey, dryRun, env);
    if out.Inserted? || out == Refused(EntryAlreadyExists) {
      var keys := env.keysOf(at.doc.value);
      var key := if indexKey != [] then indexKey else keys[0];
      assert key in keys;
    }
  }

  /**
   * Removing by `indexKey` touches only an orphan: the document is gone and
   * the entry removed is in the index.
   */
  lemma RemoveByKeyOnlyOrphans(at: Location, indexKey: Doc, dryRun: bool, env: Env)
    requires indexKey != []
    ensures var out := RemoveOutcome(at, indexKey, dryRun, env);
            (out.Removed? || out.WouldRemove?) ==>
              at.doc.None? && out.key == indexKey && Present(env.index, out.key, out.loc)
  {
    var out := RemoveOutcome(at, indexKey, dryRun, env);
    if out.Removed? || out.WouldRemove? {
      var entries := Cursor(env.index, indexKey);
      if !IsNormal(at.recordId) && MatchCount(entries, at.recordId) == 1 {
        assert entries[0] == IndexEntry(indexKey, entries[0].loc);
        assert entries[0] in entries;
      }
    }
  }

  /** The number of entries of `s` under `key`. */
  function CountUnder(s: seq<IndexEntry>, key: Doc): nat
  {
    if |s| == 0 then 0 else (if s[0].key == key then 1 else 0) + CountUnder(s[1..], key)
  }

  lemma {:induction false} CursorLength(index: seq<IndexEntry>, key: Doc)
    ensures |Cursor(index, key)| == CountUnder(index, key)
  {
    if |index| > 0 {
      CursorLength(index[1..], key);
    }
  }

  /**
   * Without a usable `recordId` (and with no entry stored at that null or
   * maximal id), removing by `indexKey` is decided by the number of entries
   * under the key: none is not found, several are ambiguous and reported
   * with their count, and exactly one is removed.
   */
  lemma RemoveByKeyWithoutRecordId(at: Location, indexKey: Doc, dryRun: bool, env: Env)
    requires indexKey != [] && at.doc.None? && !IsNormal(at.recordId)
    requires !Present(env.index, indexKey, at.recordId)
    ensures var n := CountUnder(env.index, indexKey);
            var out := RemoveOutcome(at, indexKey, dryRun, env);
            (n == 0 ==> out == Refused(EntryNotFound)) &&
            (n > 1 ==> out == Refused(AmbiguousEntries(n))) &&
            (n == 1 ==> exists loc :: Present(env.index, indexKey, loc) &&
                                      out == Finish(indexKey, loc, dryRun))
  {
    var entries := Cursor(env.index, indexKey);
    CursorLength(env.index, indexKey);
    if |entries| == 1 {
      assert entries[0] == IndexEntry(indexKey, entries[0].loc);
      assert entries[0] in entries;
    }
  }

  /**
   * A dry run reports exactly the entry the real run would write, and
   * refuses exactly when the real run refuses, for the same reason.
   */
  lemma DryRunPredictsWrite(at: Location, indexKey: Doc, env: Env)
    ensures var dry := InsertOutcome(at, indexKey, true, env);
            var actual := InsertOutcome(at, indexKey, false, env);
            (dry.Refused? <==> actual.Refused?) && (dry.Refused? ==> dry == actual) &&
            (dry.WouldInsert? <==> actual.Inserted?) &&
            (actual.Inserted? ==> dry.loc == actual.loc && dry.key in actual.keys)
    ensures var dry := RemoveOutcome(at, indexKey, true, env);
            var actual := RemoveOutcome(at, indexKey, false, env);
            (dry.Refused? <==> actual.Refused?) && (dry.Refused? ==> dry == actual) &&
            (dry.WouldRemove? <==> actual.Removed?) &&
            (actual.Removed? ==> dry.key == actual.key && dry.loc == actual.loc)
  {
    var dry := InsertOutcome(at, indexKey, true, env);
    if dry.WouldInsert? {
      var keys := env.keysOf(at.doc.value);
      assert dry.key in keys;
    }
  }

  /** Only a run that is not a dry run writes. */
  lemma WritesOnlyForReal(at: Location, indexKey: Doc, dryRun: bool, env: Env)
    ensures Writes(InsertOutcome(at, indexKey, dryRun, env)) ==> !dryRun
    ensures Writes(RemoveOutcome(at, indexKey, dryRun, env)) ==> !dryRun
  {
  }

  /** A dry run never writes, and a command that is refused never writes. */
  lemma RunWritesOnlyForReal(cmd: Doc, env: Env)
    ensures Writes(RunOutcome(cmd, env)) ==> Parse(cmd).Ok? && !BoolField(cmd, "dryRun")
  {
    match Admit(cmd, env)
    case Err(_) =>
    case Ok(req) =>
      ParseAccepted(cmd);
      match Locate(req, env)
      case Err(_) =>
      case Ok(at) => WritesOnlyForReal(at, req.indexKey, req.dryRun, env);
  }

  /**
   * An insert of a document missing from the collection is refused: by
   * `_id` when the `_id` index does not resolve it, otherwise because no
   * document was found.
   */
  lemma InsertNeedsDocument(cmd: Doc, env: Env)
    requires Admit(cmd, env).Ok? && Admit(cmd, env).value.isInsert
    requires var req := Admit(cmd, env).value;
             req.id.Some? && env.hasIdIndex && req.id.value !in env.ids
    ensures RunOutcome(cmd, env) == Refused(DocumentNotFoundById)
  {
  }

  /** Removing by `indexKey` while the document still exists is refused with code 50003. */
  lemma RemoveRefusesLiveDocument(at: Location, indexKey: Doc, dryRun: bool, env: Env)
    requires indexKey != [] && at.doc.Some?
    ensures RemoveOutcome(at, indexKey, dryRun, env) == Refused(DocumentStillExists)
    ensures Code(RemoveOutcome(at, indexKey, dryRun, env).reason) == Some(DOCUMENT_STILL_EXISTS)
  {
  }
}
