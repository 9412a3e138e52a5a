/**
 * Server-side document integrity (`document_integrity.cpp`): which bytes of
 * a stored document are hashed, reading the `_$docHash` field back,
 * verifying it, and stripping it.
 *
 * XXH64 with seed 0 is the parameter `H`: the model never looks inside it.
 */
module DocumentIntegrity {
  import opened Wrappers
  import opened Bytes
  import opened BsonTree

  /** `kDocHashFieldName`. */
  const DOC_HASH_FIELD: string := "_$docHash"

  datatype Status =
    | OK
    | BadValue                                        // the field is present but not a NumberLong
    | DocumentIntegrityError(expected: u64, actual: u64)

  /** The elements whose name is not `name`, in their original order. */
  function Without(d: Doc, name: string): (r: Doc)
    ensures |r| <= |d|
  {
    if |d| == 0 then []
    else if d[0].name == name then Without(d[1..], name)
    else [d[0]] + Without(d[1..], name)
  }

  /** `stripHashField`: a copy when the field is absent, otherwise the filtering builder loop. */
  function StripHashField(d: Doc): Doc
  {
    if !HasField(d, DOC_HASH_FIELD) then d else Without(d, DOC_HASH_FIELD)
  }

  /**
   * `computeDocumentHash`: the whole document when it has no hash field; the
   * bytes between the first element and the terminator when the hash field
   * comes first; otherwise the whole rebuilt document without hash fields.
   */
  function ComputeDocumentHash(H: seq<byte> -> u64, d: Doc): u64
  {
    if !HasField(d, DOC_HASH_FIELD) then H(DocBytes(d))
    else if |d| > 0 && d[0].name == DOC_HASH_FIELD then
      var bytes := DocBytes(d);
      var afterHashElem := 4 + |ElemBytes(d[0])|;
      H(bytes[afterHashElem..|bytes| - 1])
    else H(DocBytes(Without(d, DOC_HASH_FIELD)))
  }

  /** `extractDocumentHash`: the NumberLong under the hash field, reinterpreted as uint64. */
  function ExtractDocumentHash(d: Doc): Option<u64>
  {
    match GetField(d, DOC_HASH_FIELD)
    case None => None
    case Some(e) => if e.val.Long? then Some(WrapUint64(e.val.l)) else None
  }

  /** `verifyDocumentIntegrity`. */
  function VerifyDocumentIntegrity(H: seq<byte> -> u64, d: Doc): Status
  {
    var expected := ExtractDocumentHash(d);
    if expected.None? then
      if HasField(d, DOC_HASH_FIELD) then BadValue else OK
    else
      var actual := ComputeDocumentHash(H, d);
      if actual != expected.value then DocumentIntegrityError(expected.value, actual) else OK
  }

  // ---------------------------------------------------------------------
  // Stripping
  // ---------------------------------------------------------------------

  /** Filtering distributes over concatenation, so the kept elements keep their order. */
  lemma {:induction false} WithoutAppend(a: Doc, b: Doc, name: string)
    ensures Without(a + b, name) == Without(a, name) + Without(b, name)
    decreases |a|
  {
    if |a| == 0 {
      assert a + b == b;
    } else {
      assert (a + b)[0] == a[0];
      assert (a + b)[1..] == a[1..] + b;
      WithoutAppend(a[1..], b, name);
    }
  }

  /** An element survives the filter exactly when it is in the document under another name. */
  lemma {:induction false} WithoutMembers(d: Doc, name: string, e: Elem)
    ensures e in Without(d, name) <==> e in d && e.name != name
    decreases |d|
  {
    if |d| > 0 {
      WithoutMembers(d[1..], name, e);
      assert d == [d[0]] + d[1..];
    }
  }

  /** Nothing named `name` is left after filtering it out. */
  lemma {:induction false} WithoutRemovesName(d: Doc, name: string)
    ensures !HasField(Without(d, name), name)
    decreases |d|
  {
    if |d| > 0 {
      WithoutRemovesName(d[1..], name);
      var r := Without(d, name);
      if d[0].name != name {
        assert r[1..] == Without(d[1..], name);
        HasFieldCons(r, name);
      }
    }
  }

  /** A document without the name passes through the filter unchanged. */
  lemma {:induction false} WithoutAbsent(d: Doc, name: string)
    requires !HasField(d, name)
    ensures Without(d, name) == d
    decreases |d|
  {
    if |d| > 0 {
      HasFieldCons(d, name);
      WithoutAbsent(d[1..], name);
      assert d == [d[0]] + d[1..];
    }
  }

  /** The copy shortcut of `stripHashField` agrees with the filtering loop. */
  lemma StripIsFilter(d: Doc)
    ensures StripHashField(d) == Without(d, DOC_HASH_FIELD)
  {
    if !HasField(d, DOC_HASH_FIELD) {
      WithoutAbsent(d, DOC_HASH_FIELD);
    }
  }

  /**
   * `stripHashField` removes every hash element and keeps every other element;
   * stripping twice is stripping once.
   */
  lemma StripHashFieldSpec(d: Doc, e: Elem)
    ensures !HasField(StripHashField(d), DOC_HASH_FIELD)
    ensures e in StripHashField(d) <==> e in d && e.name != DOC_HASH_FIELD
    ensures StripHashField(StripHashField(d)) == StripHashField(d)
  {
    StripIsFilter(d);
    WithoutRemovesName(d, DOC_HASH_FIELD);
    WithoutMembers(d, DOC_HASH_FIELD, e);
  }

  // ---------------------------------------------------------------------
  // Which bytes are hashed
  // ---------------------------------------------------------------------

  /** A document's bytes: the header, the first element, the others, the terminator. */
  lemma FirstElementLayout(d: Doc)
    requires |d| > 0
    ensures var bytes := DocBytes(d);
      var after := 4 + |ElemBytes(d[0])|;
      after <= |bytes| - 1 && bytes[after..|bytes| - 1] == ElemsBytes(d[1..])
  {
    var e0 := ElemBytes(d[0]);
    var rest := ElemsBytes(d[1..]);
    assert ElemsBytes(d) == e0 + rest;
    var size := LE(|ElemsBytes(d)| + 5, 4);
    assert |size| == 4;
    var bytes := DocBytes(d);
    assert bytes == size + e0 + rest + [0];
    Split4(size, e0, rest, [0]);
    assert |bytes| - 1 == |size| + |e0| + |rest|;
    assert bytes[|size| + |e0|..|size| + |e0| + |rest|] == rest;
  }

  /** With the hash field first, exactly the other elements' bytes are hashed (no header, no terminator). */
  lemma HashFirstHashesOtherElements(H: seq<byte> -> u64, d: Doc)
    requires |d| > 0 && d[0].name == DOC_HASH_FIELD
    ensures ComputeDocumentHash(H, d) == H(ElemsBytes(d[1..]))
  {
    assert HasField(d, DOC_HASH_FIELD);
    FirstElementLayout(d);
  }

  /** A document that is only its hash field hashes the empty input. */
  lemma HashOnlyHashesEmpty(H: seq<byte> -> u64, hashElem: Elem)
    requires hashElem.name == DOC_HASH_FIELD
    ensures ComputeDocumentHash(H, [hashElem]) == H([])
  {
    HashFirstHashesOtherElements(H, [hashElem]);
  }

  /** With the hash field elsewhere, the hash is that of the stripped document. */
  lemma HashLaterEqualsStripped(H: seq<byte> -> u64, d: Doc)
    requires HasField(d, DOC_HASH_FIELD) && d[0].name != DOC_HASH_FIELD
    ensures ComputeDocumentHash(H, d) == ComputeDocumentHash(H, StripHashField(d))
    ensures ComputeDocumentHash(H, d) == H(DocBytes(StripHashField(d)))
  {
    WithoutRemovesName(d, DOC_HASH_FIELD);
  }

  /**
   * Putting the hash field in front of some content and hashing does not give
   * the content's own hash: the first hashes the content's element bytes, the
   * second its whole encoding, and the two byte strings always differ.
   */
  lemma HashFirstVersusContent(H: seq<byte> -> u64, hashElem: Elem, content: Doc)
    requires hashElem.name == DOC_HASH_FIELD && !HasField(content, DOC_HASH_FIELD)
    ensures ComputeDocumentHash(H, [hashElem] + content) == H(ElemsBytes(content))
    ensures ComputeDocumentHash(H, content) == H(DocBytes(content))
    ensures ElemsBytes(content) != DocBytes(content)
    ensures ComputeDocumentHash(H, [hashElem] + content) == ComputeDocumentHash(H, content)
        <==> H(ElemsBytes(content)) == H(DocBytes(content))
  {
    var d := [hashElem] + content;
    assert d[1..] == content;
    HashFirstHashesOtherElements(H, d);
    DocBytesLayout(content);
  }

  // ---------------------------------------------------------------------
  // Reading and verifying the stored hash
  // ---------------------------------------------------------------------

  /** A stored NumberLong reads back as its two's-complement uint64 value. */
  lemma ExtractAfterPut(d: Doc, l: int)
    ensures ExtractDocumentHash(Put(d, DOC_HASH_FIELD, Long(l))) == Some(WrapUint64(l))
  {
    GetAfterPut(d, DOC_HASH_FIELD, Long(l));
  }

  /** Only a NumberLong is accepted: any other value under the hash field reads as absent. */
  lemma ExtractRejectsOtherTypes(d: Doc, v: Val)
    requires !v.Long?
    ensures ExtractDocumentHash(Put(d, DOC_HASH_FIELD, v)) == None
    ensures HasField(Put(d, DOC_HASH_FIELD, v), DOC_HASH_FIELD)
  {
    GetAfterPut(d, DOC_HASH_FIELD, v);
  }

  /** A uint64 stored as the Java long of the same bits comes back unchanged. */
  lemma SignedLongRoundTrip(u: u64)
    ensures WrapUint64(Signed(u, 8)) == u
  {
    Pow256Values();
    if u >= TWO_64 / 2 {
      DivModUnique(u - TWO_64, TWO_64, -1, u);
    } else {
      DivModUnique(u, TWO_64, 0, u);
    }
  }

  /** The three outcomes of verification, each with the condition that produces it. */
  lemma VerifyOutcomes(H: seq<byte> -> u64, d: Doc)
    ensures VerifyDocumentIntegrity(H, d) == OK <==>
              !HasField(d, DOC_HASH_FIELD) ||
              (ExtractDocumentHash(d).Some? && ExtractDocumentHash(d).value == ComputeDocumentHash(H, d))
    ensures VerifyDocumentIntegrity(H, d) == BadValue <==>
              HasField(d, DOC_HASH_FIELD) && ExtractDocumentHash(d).None?
    ensures VerifyDocumentIntegrity(H, d).DocumentIntegrityError? <==>
              ExtractDocumentHash(d).Some? && ExtractDocumentHash(d).value != ComputeDocumentHash(H, d)
  {
    if ExtractDocumentHash(d).Some? {
      assert GetField(d, DOC_HASH_FIELD).Some?;
    }
  }

  /**
   * A document sealed the way a driver seals it (the hash of the content's
   * element bytes, stored first as a NumberLong) verifies; the same seal on
   * content whose element bytes hash differently is rejected.
   */
  lemma SealedDocumentVerifies(H: seq<byte> -> u64, content: Doc, tampered: Doc)
    requires !HasField(content, DOC_HASH_FIELD) && !HasField(tampered, DOC_HASH_FIELD)
    ensures var seal := Elem(DOC_HASH_FIELD, Long(Signed(H(ElemsBytes(content)), 8)));
      VerifyDocumentIntegrity(H, [seal] + content) == OK &&
      (H(ElemsBytes(tampered)) != H(ElemsBytes(content)) ==>
         VerifyDocumentIntegrity(H, [seal] + tampered)
           == DocumentIntegrityError(H(ElemsBytes(content)), H(ElemsBytes(tampered))))
  {
    var seal := Elem(DOC_HASH_FIELD, Long(Signed(H(ElemsBytes(content)), 8)));
    SignedLongRoundTrip(H(ElemsBytes(content)));
    SealedParts(H, seal, content);
    SealedParts(H, seal, tampered);
  }

  /** What verification sees in `[seal] + c`: the seal's value, and the hash of c's element bytes. */
  lemma SealedParts(H: seq<byte> -> u64, seal: Elem, c: Doc)
    requires seal.name == DOC_HASH_FIELD
    ensures GetField([seal] + c, DOC_HASH_FIELD) == Some(seal)
    ensures ComputeDocumentHash(H, [seal] + c) == H(ElemsBytes(c))
  {
    var d := [seal] + c;
    assert d[1..] == c;
    HashFirstHashesOtherElements(H, d);
  }

  // ---------------------------------------------------------------------
  // The hash the header and the tests describe
  // ---------------------------------------------------------------------

  /**
   * `computeDocumentHash` as its header promises ("excluding the _$docHash
   * field itself") and as its tests use it: the hash of the whole encoding
   * of the document without its hash field, whatever position that field
   * had.  The no-hash and later-hash paths already compute this; the
   * hash-first path as written hashes only the other elements' bytes.
   */
  function ComputeContentHash(H: seq<byte> -> u64, d: Doc): (r: u64)
    ensures r == ComputeDocumentHash(H, StripHashField(d))
  {
    StripHashFieldSpec(d, Elem(DOC_HASH_FIELD, Null));
    H(DocBytes(StripHashField(d)))
  }

  /** `verifyDocumentIntegrity` over the content hash. */
  function VerifyContentIntegrity(H: seq<byte> -> u64, d: Doc): (r: Status)
    ensures !HasField(d, DOC_HASH_FIELD) ==> r == OK
    ensures r == OK <==>
              (!HasField(d, DOC_HASH_FIELD) ||
               (ExtractDocumentHash(d).Some? && ExtractDocumentHash(d).value == ComputeContentHash(H, d)))
  {
    var expected := ExtractDocumentHash(d);
    if expected.None? then
      if HasField(d, DOC_HASH_FIELD) then BadValue else OK
    else
      var actual := ComputeContentHash(H, d);
      if actual != expected.value then DocumentIntegrityError(expected.value, actual) else OK
  }

  /**
   * The content hash and the hash as written agree on every document whose
   * first element is not the hash field; with the hash field first they take
   * different byte strings (the content's element bytes against its whole
   * encoding).
   */
  lemma ContentHashVersusAsWritten(H: seq<byte> -> u64, d: Doc)
    ensures |d| == 0 || d[0].name != DOC_HASH_FIELD ==> ComputeContentHash(H, d) == ComputeDocumentHash(H, d)
    ensures |d| > 0 && d[0].name == DOC_HASH_FIELD && !HasField(d[1..], DOC_HASH_FIELD) ==>
              ComputeContentHash(H, d) == H(DocBytes(d[1..])) &&
              ComputeDocumentHash(H, d) == H(ElemsBytes(d[1..])) &&
              ElemsBytes(d[1..]) != DocBytes(d[1..])
  {
    if !HasField(d, DOC_HASH_FIELD) {
      WithoutAbsent(d, DOC_HASH_FIELD);
    } else if d[0].name != DOC_HASH_FIELD {
      HashLaterEqualsStripped(H, d);
    } else if !HasField(d[1..], DOC_HASH_FIELD) {
      assert d == [d[0]] + d[1..];
      HashFirstVersusContent(H, d[0], d[1..]);
      StripIsFilter(d);
      WithoutAbsent(d[1..], DOC_HASH_FIELD);
      assert Without(d, DOC_HASH_FIELD) == Without(d[1..], DOC_HASH_FIELD);
    }
  }

  /**
   * The tests' scenario: the hash of some content, stored first as a
   * NumberLong, verifies under the content hash; the same seal in front of
   * content whose encoding hashes differently is rejected with both hashes.
   */
  lemma ContentSealVerifies(H: seq<byte> -> u64, content: Doc, tampered: Doc)
    requires !HasField(content, DOC_HASH_FIELD) && !HasField(tampered, DOC_HASH_FIELD)
    ensures var seal := Elem(DOC_HASH_FIELD, Long(Signed(H(DocBytes(content)), 8)));
      VerifyContentIntegrity(H, [seal] + content) == OK &&
      (H(DocBytes(tampered)) != H(DocBytes(content)) ==>
         VerifyContentIntegrity(H, [seal] + tampered)
           == DocumentIntegrityError(H(DocBytes(content)), H(DocBytes(tampered))))
  {
    var seal := Elem(DOC_HASH_FIELD, Long(Signed(H(DocBytes(content)), 8)));
    SignedLongRoundTrip(H(DocBytes(content)));
    ContentSealParts(H, seal, content);
    ContentSealParts(H, seal, tampered);
  }

  /** What the content-hash verification sees in `[seal] + c`: the seal's value, and the hash of c's encoding. */
  lemma ContentSealParts(H: seq<byte> -> u64, seal: Elem, c: Doc)
    requires seal.name == DOC_HASH_FIELD && !HasField(c, DOC_HASH_FIELD)
    ensures GetField([seal] + c, DOC_HASH_FIELD) == Some(seal)
    ensures ComputeContentHash(H, [seal] + c) == H(DocBytes(c))
  {
    var d := [seal] + c;
    assert d[1..] == c;
    ContentHashVersusAsWritten(H, d);
  }
}
