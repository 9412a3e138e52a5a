/**
 * The Java driver's `VerifiedUpdate`: an update specification built from
 * modifier calls (`$set`, `$inc`, ...), each operator holding one shared
 * sub-document, which can be locked to store the XXH64 hash of the whole
 * encoded specification and is then sent with that hash in front.
 *
 * lz4-java's `XXHash64.hash(..., seed 0)` is the parameter `H`.
 */
module VerifiedUpdateModel {
  import opened Wrappers
  import opened Bytes
  import opened BsonTree
  import DecimalText
  import DocumentIntegrity
  import VerifiedDocumentModel

  datatype UpdateError = IllegalState   // IllegalStateException: the update is locked

  /** The sub-document `getOrCreateModifier(op)` hands back: the existing one, or a new empty one. */
  function Modifier(spec: Doc, op: string): Doc
  {
    match GetField(spec, op)
    case Some(e) => if e.val.Obj? then e.val.fields else []
    case None => []
  }

  /** The specification after `getOrCreateModifier(op).put(field, value)`. */
  function Modified(spec: Doc, op: string, field: string, value: Val): Doc
  {
    Put(spec, op, Obj(Put(Modifier(spec, op), field, value)))
  }

  /** A Java `List` as the BSON array the codec writes: elements named "0", "1", ... */
  function ListValue(values: seq<Val>): Val
  {
    Arr(seq(|values|, i requires 0 <= i < |values| => Elem(DecimalText.Text(i), values[i])))
  }

  /**
   * A Java `Number` as `toBsonValue` converts it: an `Integer`, a `Long` or a
   * `Double`. `inc` and `mul` accept nothing else.
   */
  predicate IsNumber(v: Val)
  {
    v.Int32? || v.Long? || v.Double?
  }

  /** Every top-level name is an operator (starts with '$') holding a sub-document. */
  predicate WellFormedSpec(spec: Doc)
  {
    DistinctNames(spec) &&
    forall i :: 0 <= i < |spec| ==> |spec[i].name| > 0 && spec[i].name[0] == '$' && spec[i].val.Obj?
  }

  /** Putting a name twice leaves the second value, in the first put's position. */
  lemma {:induction false} PutTwice(d: Doc, name: string, a: Val, b: Val)
    ensures Put(Put(d, name, a), name, b) == Put(d, name, b)
    decreases |d|
  {
    if |d| > 0 && d[0].name != name {
      PutTwice(d[1..], name, a, b);
      var once := Put(d, name, a);
      assert once == [d[0]] + Put(d[1..], name, a);
      assert once[1..] == Put(d[1..], name, a);
    }
  }

  /** A modifier call keeps the specification well formed. */
  lemma ModifiedWellFormed(spec: Doc, op: string, field: string, value: Val)
    requires WellFormedSpec(spec) && |op| > 0 && op[0] == '$'
    ensures WellFormedSpec(Modified(spec, op, field, value))
  {
    var v := Obj(Put(Modifier(spec, op), field, value));
    var r := Modified(spec, op, field, value);
    PutKeepsDistinct(spec, op, v);
    if HasField(spec, op) {
      forall i | 0 <= i < |r| ensures |r[i].name| > 0 && r[i].name[0] == '$' && r[i].val.Obj? {
        assert r[i].name == Names(r)[i] == Names(spec)[i] == spec[i].name;
        PutValues(spec, op, v, i);
      }
    }
  }

  /** After a put, each position holds its old element or the new value under the put name. */
  lemma {:induction false} PutValues(d: Doc, name: string, v: Val, i: nat)
    requires i < |Put(d, name, v)|
    ensures Put(d, name, v)[i] == Elem(name, v) || (i < |d| && Put(d, name, v)[i] == d[i])
    decreases |d|
  {
    if |d| > 0 && d[0].name != name && i > 0 {
      PutValues(d[1..], name, v, i - 1);
    }
  }

  /** The next call on an operator finds the sub-document the previous one left. */
  lemma ModifierAfterModified(spec: Doc, op: string, field: string, value: Val)
    ensures Modifier(Modified(spec, op, field, value), op) == Put(Modifier(spec, op), field, value)
  {
    GetAfterPut(spec, op, Obj(Put(Modifier(spec, op), field, value)));
  }

  /**
   * Calls on the same operator share one sub-document: the second call puts
   * into what the first left there, the operator keeps its place, and a
   * later value for the same field overwrites the earlier one.
   */
  lemma SameOperatorShares(spec: Doc, op: string, f1: string, v1: Val, f2: string, v2: Val)
    ensures Modified(Modified(spec, op, f1, v1), op, f2, v2)
         == Put(spec, op, Obj(Put(Put(Modifier(spec, op), f1, v1), f2, v2)))
    ensures GetField(Modifier(Modified(Modified(spec, op, f1, v1), op, f2, v2), op), f2) == Some(Elem(f2, v2))
  {
    var first := Put(Modifier(spec, op), f1, v1);
    ModifierAfterModified(spec, op, f1, v1);
    PutTwice(spec, op, Obj(first), Obj(Put(first, f2, v2)));
    ModifierAfterModified(Modified(spec, op, f1, v1), op, f2, v2);
    GetAfterPut(first, f2, v2);
  }

  /** A modifier call leaves every other operator's sub-document as it was. */
  lemma OtherOperatorsUntouched(spec: Doc, op: string, other: string, field: string, value: Val)
    requires other != op
    ensures GetField(Modified(spec, op, field, value), other) == GetField(spec, other)
    ensures Modifier(Modified(spec, op, field, value), other) == Modifier(spec, other)
  {
    GetOtherAfterPut(spec, op, Obj(Put(Modifier(spec, op), field, value)), other);
  }

  /** A first call on an operator appends it after the existing ones; a repeated one keeps the order. */
  lemma OperatorOrder(spec: Doc, op: string, field: string, value: Val)
    ensures HasField(spec, op) ==> Names(Modified(spec, op, field, value)) == Names(spec)
    ensures !HasField(spec, op) ==>
              Modified(spec, op, field, value) == spec + [Elem(op, Obj([Elem(field, value)]))]
  {
  }

  class VerifiedUpdate {
    var updateSpec: Doc
    var locked: bool
    /** `integrityHash`; `None` is Java's null. */
    var integrityHash: Option<int>

    ghost predicate Valid()
      reads this
    {
      WellFormedSpec(updateSpec) && (locked <==> integrityHash.Some?)
    }

    /** `new VerifiedUpdate()`: an empty specification, unlocked, no hash. */
    constructor()
      ensures Valid() && updateSpec == [] && !locked && integrityHash == None
    {
      updateSpec := [];
      locked := false;
      integrityHash := None;
    }

    /** `checkNotLocked()` then `getOrCreateModifier(op).put(field, value)`. */
    method Modify(op: string, field: string, value: Val) returns (r: Result<(), UpdateError>)
      requires Valid() && |op| > 0 && op[0] == '$'
      modifies this
      ensures Valid() && locked == old(locked) && integrityHash == old(integrityHash)
      ensures old(locked) ==> r == Err(IllegalState) && updateSpec == old(updateSpec)
      ensures !old(locked) ==> r == Ok(()) && updateSpec == Modified(old(updateSpec), op, field, value)
    {
      if locked {
        return Err(IllegalState);
      }
      ghost var spec0 := updateSpec;
      var existing := GetField(updateSpec, op);
      var modifier: Doc;
      if existing.Some? && existing.value.val.Obj? {
        modifier := existing.value.val.fields;
      } else {
        modifier := [];
        updateSpec := Put(updateSpec, op, Obj(modifier));
      }
      modifier := Put(modifier, field, value);
      updateSpec := Put(updateSpec, op, Obj(modifier));
      PutTwice(spec0, op, Obj([]), Obj(modifier));
      ModifiedWellFormed(spec0, op, field, value);
      r := Ok(());
    }

    /** `set(field, value)`. */
    method Set(field: string, value: Val) returns (r: Result<(), UpdateError>)
      requires Valid()
      modifies this
      ensures Valid() && locked == old(locked) && integrityHash == old(integrityHash)
      ensures old(locked) ==> r == Err(IllegalState) && updateSpec == old(updateSpec)
      ensures !old(locked) ==> r == Ok(()) && updateSpec == Modified(old(updateSpec), "$set", field, value)
    {
      r := Modify("$set", field, value);
    }

    /** `inc(field, value)`. */
    method Inc(field: string, value: Val) returns (r: Result<(), UpdateError>)
      requires Valid() && IsNumber(value)
      modifies this
      ensures Valid() && locked == old(locked) && integrityHash == old(integrityHash)
      ensures old(locked) ==> r == Err(IllegalState) && updateSpec == old(updateSpec)
      ensures !old(locked) ==> r == Ok(()) && updateSpec == Modified(old(updateSpec), "$inc", field, value)
    {
      r := Modify("$inc", field, value);
    }

    /** `unset(field)`: the payload is the empty string. */
    method Unset(field: string) returns (r: Result<(), UpdateError>)
      requires Valid()
      modifies this
      ensures Valid() && locked == old(locked) && integrityHash == old(integrityHash)
      ensures old(locked) ==> r == Err(IllegalState) && updateSpec == old(updateSpec)
      ensures !old(locked) ==> r == Ok(()) && updateSpec == Modified(old(updateSpec), "$unset", field, Str(""))
    {
      r := Modify("$unset", field, Str(""));
    }

    /** `push(field, value)`. */
    method Push(field: string, value: Val) returns (r: Result<(), UpdateError>)
      requires Valid()
      modifies this
      ensures Valid() && locked == old(locked) && integrityHash == old(integrityHash)
      ensures old(locked) ==> r == Err(IllegalState) && updateSpec == old(updateSpec)
      ensures !old(locked) ==> r == Ok(()) && updateSpec == Modified(old(updateSpec), "$push", field, value)
    {
      r := Modify("$push", field, value);
    }

    /** `pushAll(field, values)`: `{$each: values}` under `$push`. */
    method PushAll(field: string, values: seq<Val>) returns (r: Result<(), UpdateError>)
      requires Valid()
      modifies this
      ensures Valid() && locked == old(locked) && integrityHash == old(integrityHash)
      ensures old(locked) ==> r == Err(IllegalState) && updateSpec == old(updateSpec)
      ensures !old(locked) ==>
                (r == Ok(()) && updateSpec == Modified(old(updateSpec), "$push", field, Obj([Elem("$each", ListValue(values))])))
    {
      r := Modify("$push", field, Obj([Elem("$each", ListValue(values))]));
    }

    /** `pull(field, value)`. */
    method Pull(field: string, value: Val) returns (r: Result<(), UpdateError>)
      requires Valid()
      modifies this
      ensures Valid() && locked == old(locked) && integrityHash == old(integrityHash)
      ensures old(locked) ==> r == Err(IllegalState) && updateSpec == old(updateSpec)
      ensures !old(locked) ==> r == Ok(()) && updateSpec == Modified(old(updateSpec), "$pull", field, value)
    {
      r := Modify("$pull", field, value);
    }

    /** `addToSet(field, value)`. */
    method AddToSet(field: string, value: Val) returns (r: Result<(), UpdateError>)
      requires Valid()
      modifies this
      ensures Valid() && locked == old(locked) && integrityHash == old(integrityHash)
      ensures old(locked) ==> r == Err(IllegalState) && updateSpec == old(updateSpec)
      ensures !old(locked) ==> r == Ok(()) && updateSpec == Modified(old(updateSpec), "$addToSet", field, value)
    {
      r := Modify("$addToSet", field, value);
    }

    /** `pop(field, first)`: -1 removes the first element, 1 the last. */
    method Pop(field: string, first: bool) returns (r: Result<(), UpdateError>)
      requires Valid()
      modifies this
      ensures Valid() && locked == old(locked) && integrityHash == old(integrityHash)
      ensures old(locked) ==> r == Err(IllegalState) && updateSpec == old(updateSpec)
      ensures !old(locked) ==>
                (r == Ok(()) && updateSpec == Modified(old(updateSpec), "$pop", field, Int32(if first then -1 else 1)))
    {
      r := Modify("$pop", field, Int32(if first then -1 else 1));
    }

    /** `rename(oldName, newName)`: the new name is the payload under the old one. */
    method Rename(oldName: string, newName: string) returns (r: Result<(), UpdateError>)
      requires Valid()
      modifies this
      ensures Valid() && locked == old(locked) && integrityHash == old(integrityHash)
      ensures old(locked) ==> r == Err(IllegalState) && updateSpec == old(updateSpec)
      ensures !old(locked) ==> r == Ok(()) && updateSpec == Modified(old(updateSpec), "$rename", oldName, Str(newName))
    {
      r := Modify("$rename", oldName, Str(newName));
    }

    /** `min(field, value)`. */
    method Min(field: string, value: Val) returns (r: Result<(), UpdateError>)
      requires Valid()
      modifies this
      ensures Valid() && locked == old(locked) && integrityHash == old(integrityHash)
      ensures old(locked) ==> r == Err(IllegalState) && updateSpec == old(updateSpec)
      ensures !old(locked) ==> r == Ok(()) && updateSpec == Modified(old(updateSpec), "$min", field, value)
    {
      r := Modify("$min", field, value);
    }

    /** `max(field, value)`. */
    method Max(field: string, value: Val) returns (r: Result<(), UpdateError>)
      requires Valid()
      modifies this
      ensures Valid() && locked == old(locked) && integrityHash == old(integrityHash)
      ensures old(locked) ==> r == Err(IllegalState) && updateSpec == old(updateSpec)
      ensures !old(locked) ==> r == Ok(()) && updateSpec == Modified(old(updateSpec), "$max", field, value)
    {
      r := Modify("$max", field, value);
    }

    /** `mul(field, value)`. */
    method Mul(field: string, value: Val) returns (r: Result<(), UpdateError>)
      requires Valid() && IsNumber(value)
      modifies this
      ensures Valid() && locked == old(locked) && integrityHash == old(integrityHash)
      ensures old(locked) ==> r == Err(IllegalState) && updateSpec == old(updateSpec)
      ensures !old(locked) ==> r == Ok(()) && updateSpec == Modified(old(updateSpec), "$mul", field, value)
    {
      r := Modify("$mul", field, value);
    }

    /** `currentDate(field)`: the payload is `true`. */
    method CurrentDate(field: string) returns (r: Result<(), UpdateError>)
      requires Valid()
      modifies this
      ensures Valid() && locked == old(locked) && integrityHash == old(integrityHash)
      ensures old(locked) ==> r == Err(IllegalState) && updateSpec == old(updateSpec)
      ensures !old(locked) ==> r == Ok(()) && updateSpec == Modified(old(updateSpec), "$currentDate", field, Bool(true))
    {
      r := Modify("$currentDate", field, Bool(true));
    }

    /** `currentTimestamp(field)`: `{$type: "timestamp"}` under `$currentDate`. */
    method CurrentTimestamp(field: string) returns (r: Result<(), UpdateError>)
      requires Valid()
      modifies this
      ensures Valid() && locked == old(locked) && integrityHash == old(integrityHash)
      ensures old(locked) ==> r == Err(IllegalState) && updateSpec == old(updateSpec)
      ensures !old(locked) ==>
                (r == Ok(()) && updateSpec == Modified(old(updateSpec), "$currentDate", field, Obj([Elem("$type", Str("timestamp"))])))
    {
      r := Modify("$currentDate", field, Obj([Elem("$type", Str("timestamp"))]));
    }

    /** `lock()`: hashes the whole encoded specification once; later calls return at once. */
    method Lock(H: seq<byte> -> u64)
      requires Valid()
      modifies this
      ensures Valid() && locked && updateSpec == old(updateSpec)
      ensures old(locked) ==> integrityHash == old(integrityHash)
      ensures !old(locked) ==> integrityHash == Some(VerifiedDocumentModel.JavaLong(H(DocBytes(updateSpec))))
    {
      if locked {
        return;
      }
      var bytes := DocBytes(updateSpec);
      integrityHash := Some(VerifiedDocumentModel.JavaLong(H(bytes)));
      locked := true;
    }

    /** `isLocked()`. */
    predicate IsLocked()
      reads this
    {
      locked
    }

    /**
     * `toBsonDocument`: the hash first as an int64 when locked, then the
     * operators in insertion order, each sub-document copied element by element.
     */
    function ToBsonDocument(): (r: Doc)
      reads this
      requires Valid()
      ensures |r| > 0 && r[0].name == DocumentIntegrity.DOC_HASH_FIELD <==> locked
      ensures locked ==> r == [Elem(DocumentIntegrity.DOC_HASH_FIELD, Long(integrityHash.value))] + updateSpec
      ensures !locked ==> r == updateSpec
    {
      var head := if locked && integrityHash.Some? then
                    [Elem(DocumentIntegrity.DOC_HASH_FIELD, Long(integrityHash.value))]
                  else [];
      head + updateSpec
    }
  }

  /** A specification of operators never holds the hash field. */
  lemma SpecHasNoHashField(spec: Doc)
    requires WellFormedSpec(spec)
    ensures !HasField(spec, DocumentIntegrity.DOC_HASH_FIELD)
  {
  }

  /**
   * What the server makes of a locked update: it hashes the element bytes
   * after the leading hash field, while the client hashed the whole encoded
   * specification, so the update verifies only if XXH64 happens to agree on
   * those two different byte strings.
   */
  lemma LockedUpdateOnServer(H: seq<byte> -> u64, spec: Doc)
    requires WellFormedSpec(spec)
    ensures var sent := [Elem(DocumentIntegrity.DOC_HASH_FIELD,
                              Long(VerifiedDocumentModel.JavaLong(H(DocBytes(spec)))))] + spec;
      ElemsBytes(spec) != DocBytes(spec) &&
      (DocumentIntegrity.VerifyDocumentIntegrity(H, sent) == DocumentIntegrity.OK <==>
         H(DocBytes(spec)) == H(ElemsBytes(spec)))
  {
    var seal := Elem(DocumentIntegrity.DOC_HASH_FIELD, Long(VerifiedDocumentModel.JavaLong(H(DocBytes(spec)))));
    SpecHasNoHashField(spec);
    DocumentIntegrity.SignedLongRoundTrip(H(DocBytes(spec)));
    DocumentIntegrity.SealedParts(H, seal, spec);
    DocumentIntegrity.VerifyOutcomes(H, [seal] + spec);
    DocBytesLayout(spec);
  }

  /**
   * Against the content hash the integrity header promises, which is the
   * hash `lock()` computes, every locked update verifies.
   */
  lemma LockedUpdateOnContentServer(H: seq<byte> -> u64, spec: Doc)
    requires WellFormedSpec(spec)
    ensures var sent := [Elem(DocumentIntegrity.DOC_HASH_FIELD,
                              Long(VerifiedDocumentModel.JavaLong(H(DocBytes(spec)))))] + spec;
      DocumentIntegrity.VerifyContentIntegrity(H, sent) == DocumentIntegrity.OK
  {
    SpecHasNoHashField(spec);
    DocumentIntegrity.ContentSealVerifies(H, spec, spec);
  }
}
