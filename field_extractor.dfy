/**
 * `UnifiedFieldExtractor` (unified_field_extractor.h): a registry of field
 * paths, each given a slot, de-duplicated through a 4-byte signature with
 * collision lists; after `finalize` one scan of a document fills every slot.
 */
module FieldExtractor {
  import opened Wrappers
  import opened Bytes
  import opened BsonTree
  import DottedPath

  const MAX_FIELDS: nat := 256
  const INVALID_SLOT: nat := 255

  // ---------------------------------------------------------------------
  // Signatures
  // ---------------------------------------------------------------------

  /** The one-byte rolling hash `h = uint8(h * 31 + byte)`. */
  function Hash8(b: seq<byte>): (h: nat)
    ensures h < 256
  {
    if |b| == 0 then 0 else (Hash8(b[..|b| - 1]) * 31 + b[|b| - 1] as int) % 256
  }

  /**
   * `makeSignature`: length (mod 256), first byte, last byte and hash, one
   * byte each from the top.  The four parts occupy disjoint bits, so the
   * source's bitwise or is the sum written here.
   */
  function Pack(b: seq<byte>, h: nat): nat
    requires |b| > 0
  {
    (|b| % 256) * 0x100_0000 + (b[0] as int) * 0x1_0000 + (b[|b| - 1] as int) * 0x100 + h
  }

  /** The hashing loop of `makeSignature` from byte `i` on, with running hash `h`. */
  function SignatureLoop(b: seq<byte>, i: nat, h: nat): nat
    requires 0 < |b| && i <= |b|
    decreases |b| - i
  {
    if i == |b| then Pack(b, h) else SignatureLoop(b, i + 1, (h * 31 + b[i] as int) % 256)
  }

  /** The signature of a field name; the empty name has 0. */
  function Signature(s: string): nat
  {
    if |s| == 0 then 0 else SignatureLoop(TextBytes(s), 0, 0)
  }

  /** The loop ends with the hash of all bytes. */
  lemma {:induction false} SignatureLoopHash(b: seq<byte>, i: nat)
    requires 0 < |b| && i <= |b|
    ensures SignatureLoop(b, i, Hash8(b[..i])) == Pack(b, Hash8(b))
    decreases |b| - i
  {
    if i < |b| {
      assert b[..i + 1][..i] == b[..i];
      SignatureLoopHash(b, i + 1);
    } else {
      assert b[..i] == b;
    }
  }

  /** A non-empty name's signature packs its length, end bytes and hash. */
  lemma SignatureIsPacked(s: string)
    requires s != []
    ensures Signature(s) == Pack(TextBytes(s), Hash8(TextBytes(s)))
  {
    var b := TextBytes(s);
    assert b[..0] == [];
    SignatureLoopHash(b, 0);
  }

  /** `makeSignature`, with its hashing loop. */
  method MakeSignature(s: string) returns (sig: nat)
    ensures sig == Signature(s)
  {
    if |s| == 0 {
      return 0;
    }
    var b := TextBytes(s);
    var hash: nat := 0;
    var i := 0;
    while i < |b|
      invariant 0 <= i <= |b| && hash < 256
      invariant SignatureLoop(b, i, hash) == Signature(s)
    {
      hash := (hash * 31 + b[i] as int) % 256;
      i := i + 1;
    }
    sig := (|b| % 256) * 0x100_0000 + (b[0] as int) * 0x1_0000 + (b[|b| - 1] as int) * 0x100 + hash;
  }

  /** A signature can be taken apart again into its four bytes. */
  lemma SignatureParts(s: string)
    requires s != []
    ensures var b := TextBytes(s); var sig := Signature(s);
      sig < TWO_32 && sig % 256 == Hash8(b) && (sig / 0x100) % 256 == b[|b| - 1] &&
      (sig / 0x1_0000) % 256 == b[0] && sig / 0x100_0000 == |s| % 256
  {
    var b := TextBytes(s);
    var A: int, B: int, C: int, D: int := |b| % 256, b[0], b[|b| - 1], Hash8(b);
    var sig := Signature(s);
    SignatureIsPacked(s);
    assert sig == ((A * 256 + B) * 256 + C) * 256 + D;
    DivModUnique(sig, 256, (A * 256 + B) * 256 + C, D);
    DivModUnique((A * 256 + B) * 256 + C, 256, A * 256 + B, C);
    DivModUnique(A * 256 + B, 256, A, B);
    assert sig / 0x100 == (A * 256 + B) * 256 + C by {
      DivModUnique(sig, 0x100, (A * 256 + B) * 256 + C, D);
    }
    assert sig / 0x1_0000 == A * 256 + B by {
      DivModUnique(sig, 0x1_0000, A * 256 + B, C * 256 + D);
    }
    assert sig / 0x100_0000 == A by {
      DivModUnique(sig, 0x100_0000, A, (B * 256 + C) * 256 + D);
    }
  }

  /** Names with equal signatures agree in length (mod 256), first and last byte, and hash. */
  lemma EqualSignatures(s: string, t: string)
    requires s != [] && t != [] && Signature(s) == Signature(t)
    ensures |s| % 256 == |t| % 256 && Hash8(TextBytes(s)) == Hash8(TextBytes(t))
    ensures TextBytes(s)[0] == TextBytes(t)[0]
    ensures TextBytes(s)[|s| - 1] == TextBytes(t)[|t| - 1]
  {
    SignatureParts(s);
    SignatureParts(t);
  }

  /** One more byte advances the hash by one step. */
  lemma Hash8Snoc(b: seq<byte>, x: byte)
    ensures Hash8(b + [x]) == (Hash8(b) * 31 + x as int) % 256
  {
    assert (b + [x])[..|b|] == b;
  }

  /** Two different names with one signature: "abcd" and "acDd". */
  lemma SignaturesCollide(s: string, t: string)
    requires s == "abcd" && t == "acDd"
    ensures s != t && Signature(s) == Signature(t)
  {
    assert s[1] != t[1];
    CollidingBytes();
    assert TextBytes(s) == [97, 98, 99, 100] by {
      var b := TextBytes(s);
      assert b[0] == 97 && b[1] == 98 && b[2] == 99 && b[3] == 100;
    }
    assert TextBytes(t) == [97, 99, 68, 100] by {
      var c := TextBytes(t);
      assert c[0] == 97 && c[1] == 99 && c[2] == 68 && c[3] == 100;
    }
    SignatureIsPacked(s);
    SignatureIsPacked(t);
  }

  /** The bytes of "abcd" and "acDd" hash alike. */
  lemma CollidingBytes()
    ensures Hash8([97, 98, 99, 100]) == 66 && Hash8([97, 99, 68, 100]) == 66
  {
    var e: seq<byte> := [];
    Hash8Snoc(e, 97);
    var x1 := e + [97];
    assert Hash8(x1) == 97;
    Hash8Snoc(x1, 98);
    Hash8Snoc(x1, 99);
    var b2, c2 := x1 + [98], x1 + [99];
    assert Hash8(b2) == 33 && Hash8(c2) == 34;
    Hash8Snoc(b2, 99);
    Hash8Snoc(c2, 68);
    var b3, c3 := b2 + [99], c2 + [68];
    assert Hash8(b3) == 98 && Hash8(c3) == 98;
    Hash8Snoc(b3, 100);
    Hash8Snoc(c3, 100);
    var b4, c4 := b3 + [100], c3 + [100];
    assert Hash8(b4) == 66 && Hash8(c4) == 66;
    assert b4 == [97, 98, 99, 100];
    assert c4 == [97, 99, 68, 100];
  }

  // ---------------------------------------------------------------------
  // Registration, as functions of the registered paths
  // ---------------------------------------------------------------------

  /** The slot of an already registered path. */
  function IndexOf(fs: seq<string>, p: string): (i: nat)
    requires p in fs
    ensures i < |fs| && fs[i] == p
    ensures forall j :: 0 <= j < i ==> fs[j] != p
  {
    if fs[0] == p then 0 else 1 + IndexOf(fs[1..], p)
  }

  /** No path is registered twice: each one is new when it is appended. */
  predicate Distinct(fs: seq<string>)
  {
    |fs| == 0 || (Distinct(fs[..|fs| - 1]) && fs[|fs| - 1] !in fs[..|fs| - 1])
  }

  /** Without repeats, a path's first slot is its only slot. */
  lemma {:induction false} DistinctIndexOf(fs: seq<string>, i: nat)
    requires Distinct(fs) && i < |fs|
    ensures IndexOf(fs, fs[i]) == i
  {
    var n := |fs| - 1;
    var init := fs[..n];
    assert init + [fs[n]] == fs;
    if i < n {
      assert init[i] == fs[i];
      DistinctIndexOf(init, i);
      IndexOfStable(init, [fs[n]], fs[i]);
    } else {
      IndexOfAppended(init, fs[n]);
    }
  }

  /** Without repeats, every slot holding a path is its first slot. */
  lemma DistinctSlots(fs: seq<string>, p: string)
    requires Distinct(fs) && p in fs
    ensures forall i :: 0 <= i < |fs| && fs[i] == p ==> i == IndexOf(fs, p)
  {
    forall i | 0 <= i < |fs| && fs[i] == p
      ensures i == IndexOf(fs, p)
    {
      DistinctIndexOf(fs, i);
    }
  }

  /** `_isNested`: whether each registered path holds a dot. */
  function NestedFlags(fs: seq<string>): (r: seq<bool>)
    ensures |r| == |fs|
  {
    if |fs| == 0 then [] else NestedFlags(fs[..|fs| - 1]) + ['.' in fs[|fs| - 1]]
  }

  /** The answer `registerField(p)` gives while registration is open. */
  function Registered(fs: seq<string>, p: string): nat
  {
    if p in fs then IndexOf(fs, p)
    else if |fs| >= MAX_FIELDS - 1 then INVALID_SLOT
    else |fs|
  }

  /** The part of a nested path before its first dot. */
  function Prefix(p: string): string
    requires '.' in p
  {
    p[..DottedPath.FirstDot(p).value]
  }

  /** The part of a nested path after its first dot. */
  function SubPath(p: string): string
    requires '.' in p
  {
    p[DottedPath.FirstDot(p).value + 1..]
  }

  /** The slots of the dot-free paths, in registration order. */
  function TopLevel(fs: seq<string>): seq<nat>
  {
    if |fs| == 0 then []
    else TopLevel(fs[..|fs| - 1]) + (if '.' in fs[|fs| - 1] then [] else [|fs| - 1])
  }

  /** The slots of the dotted paths, in registration order. */
  function Nested(fs: seq<string>): seq<nat>
  {
    if |fs| == 0 then []
    else Nested(fs[..|fs| - 1]) + (if '.' in fs[|fs| - 1] then [|fs| - 1] else [])
  }

  /** The prefixes of the dotted paths, parallel to `Nested`. */
  function Prefixes(fs: seq<string>): (r: seq<string>)
    ensures |r| == |Nested(fs)|
  {
    if |fs| == 0 then []
    else Prefixes(fs[..|fs| - 1]) + (if '.' in fs[|fs| - 1] then [Prefix(fs[|fs| - 1])] else [])
  }

  /** Every registered path is either top-level or nested. */
  lemma {:induction false} TopLevelPlusNested(fs: seq<string>)
    ensures |TopLevel(fs)| + |Nested(fs)| == |fs|
    ensures |Prefixes(fs)| == |Nested(fs)|
  {
    if |fs| > 0 {
      TopLevelPlusNested(fs[..|fs| - 1]);
    }
  }

  /** Every slot `TopLevel` lists holds a dot-free path. */
  lemma {:induction false} TopLevelSound(fs: seq<string>)
    ensures forall k :: 0 <= k < |TopLevel(fs)| ==> TopLevel(fs)[k] < |fs| && '.' !in fs[TopLevel(fs)[k]]
  {
    if |fs| > 0 {
      var n := |fs| - 1;
      var init := fs[..n];
      TopLevelSound(init);
      var T := TopLevel(init);
      assert forall k :: 0 <= k < |T| ==> fs[T[k]] == init[T[k]];
    }
  }

  /** Every dot-free path's slot is listed by `TopLevel`. */
  lemma {:induction false} TopLevelComplete(fs: seq<string>)
    ensures forall i :: 0 <= i < |fs| && '.' !in fs[i] ==> i in TopLevel(fs)
  {
    if |fs| > 0 {
      var n := |fs| - 1;
      var init := fs[..n];
      TopLevelComplete(init);
      assert forall i :: 0 <= i < n ==> fs[i] == init[i];
    }
  }

  /** `TopLevel` lists exactly the dot-free slots. */
  lemma TopLevelSlots(fs: seq<string>)
    ensures forall k :: 0 <= k < |TopLevel(fs)| ==> TopLevel(fs)[k] < |fs| && '.' !in fs[TopLevel(fs)[k]]
    ensures forall i :: 0 <= i < |fs| && '.' !in fs[i] ==> i in TopLevel(fs)
  {
    TopLevelSound(fs);
    TopLevelComplete(fs);
  }

  /** Every slot `Nested` lists holds a dotted path, and `Prefixes` holds its prefix. */
  lemma {:induction false} NestedSound(fs: seq<string>)
    ensures forall k :: 0 <= k < |Nested(fs)| ==>
      Nested(fs)[k] < |fs| && '.' in fs[Nested(fs)[k]] && Prefixes(fs)[k] == Prefix(fs[Nested(fs)[k]])
  {
    if |fs| > 0 {
      var n := |fs| - 1;
      var init := fs[..n];
      NestedSound(init);
      var N := Nested(init);
      assert forall k :: 0 <= k < |N| ==> fs[N[k]] == init[N[k]];
    }
  }

  /** Every dotted path's slot is listed by `Nested`. */
  lemma {:induction false} NestedComplete(fs: seq<string>)
    ensures forall i :: 0 <= i < |fs| && '.' in fs[i] ==> i in Nested(fs)
  {
    if |fs| > 0 {
      var n := |fs| - 1;
      var init := fs[..n];
      NestedComplete(init);
      assert forall i :: 0 <= i < n ==> fs[i] == init[i];
    }
  }

  /** `Nested` lists exactly the dotted slots, and `Prefixes` their prefixes. */
  lemma NestedSlots(fs: seq<string>)
    ensures forall k :: 0 <= k < |Nested(fs)| ==>
      Nested(fs)[k] < |fs| && '.' in fs[Nested(fs)[k]] && Prefixes(fs)[k] == Prefix(fs[Nested(fs)[k]])
    ensures forall i :: 0 <= i < |fs| && '.' in fs[i] ==> i in Nested(fs)
  {
    NestedSound(fs);
    NestedComplete(fs);
  }

  /** The slots `registerIndex`/`registerDigest` return: the registered paths' slots, in input order. */
  function SlotsOf(fs: seq<string>, paths: seq<string>): seq<nat>
  {
    if |paths| == 0 then []
    else
      var last := paths[|paths| - 1];
      SlotsOf(fs, paths[..|paths| - 1]) + (if last in fs then [IndexOf(fs, last)] else [])
  }

  /** Registering more paths does not move the earlier ones. */
  lemma {:induction false} IndexOfStable(fs: seq<string>, more: seq<string>, p: string)
    requires p in fs
    ensures p in fs + more && IndexOf(fs + more, p) == IndexOf(fs, p)
  {
    var i := IndexOf(fs, p);
    var j := IndexOf(fs + more, p);
    assert (fs + more)[i] == p;
    assert j <= i;
    assert fs[j] == p;
  }

  lemma {:induction false} SlotsOfStable(fs: seq<string>, p: string, paths: seq<string>)
    requires forall k :: 0 <= k < |paths| ==> paths[k] in fs
    ensures SlotsOf(fs + [p], paths) == SlotsOf(fs, paths)
  {
    if |paths| > 0 {
      SlotsOfStable(fs, p, paths[..|paths| - 1]);
      IndexOfStable(fs, [p], paths[|paths| - 1]);
    }
  }

  /** The total length of the lists stored under `keys`. */
  ghost function SumOver(m: map<nat, seq<nat>>, keys: set<nat>): nat
    requires keys <= m.Keys
  {
    if keys == {} then 0
    else
      var k :| k in keys;
      |m[k]| + SumOver(m, keys - {k})
  }

  /** The total length of the collision lists. */
  ghost function SumLens(m: map<nat, seq<nat>>): nat
  {
    SumOver(m, m.Keys)
  }

  /** Any key may be taken out first. */
  lemma {:induction false} SumOverRemove(m: map<nat, seq<nat>>, keys: set<nat>, k: nat)
    requires keys <= m.Keys && k in keys
    ensures SumOver(m, keys) == |m[k]| + SumOver(m, keys - {k})
    decreases keys
  {
    var x :| x in keys && SumOver(m, keys) == |m[x]| + SumOver(m, keys - {x});
    if x != k {
      SumOverRemove(m, keys - {x}, k);
      SumOverRemove(m, keys - {k}, x);
      assert keys - {x} - {k} == keys - {k} - {x};
    }
  }

  lemma {:induction false} SumOverAgree(m1: map<nat, seq<nat>>, m2: map<nat, seq<nat>>, keys: set<nat>)
    requires keys <= m1.Keys && keys <= m2.Keys
    requires forall k :: k in keys ==> |m1[k]| == |m2[k]|
    ensures SumOver(m1, keys) == SumOver(m2, keys)
    decreases keys
  {
    if keys != {} {
      var x :| x in keys;
      SumOverRemove(m1, keys, x);
      SumOverRemove(m2, keys, x);
      SumOverAgree(m1, m2, keys - {x});
    }
  }

  lemma SumLensUpdate(m: map<nat, seq<nat>>, k: nat, v: seq<nat>)
    ensures SumLens(m[k := v]) == SumLens(m) - (if k in m then |m[k]| else 0) + |v|
  {
    var m' := m[k := v];
    SumOverRemove(m', m'.Keys, k);
    assert m'.Keys - {k} == m.Keys - {k};
    SumOverAgree(m', m, m.Keys - {k});
    if k in m {
      SumOverRemove(m, m.Keys, k);
    } else {
      assert m.Keys - {k} == m.Keys;
    }
  }

  /**
   * `finalize`'s prefix index: each nested slot appended under the
   * signature `h` gives its prefix.
   */
  function AddPrefixes(h: string -> nat, m: map<nat, seq<nat>>, nested: seq<nat>, prefixes: seq<string>)
    : map<nat, seq<nat>>
    requires |nested| == |prefixes|
  {
    if |nested| == 0 then m
    else
      var n := |nested| - 1;
      var m' := AddPrefixes(h, m, nested[..n], prefixes[..n]);
      var sig := h(prefixes[n]);
      m'[sig := (if sig in m' then m'[sig] else []) + [nested[n]]]
  }

  /** After indexing, a slot is listed under a signature iff it was before or one of its prefixes has it. */
  lemma {:induction false} AddPrefixesMembers(h: string -> nat, m: map<nat, seq<nat>>, nested: seq<nat>,
                                              prefixes: seq<string>, sig: nat, slot: nat)
    requires |nested| == |prefixes|
    ensures var r := AddPrefixes(h, m, nested, prefixes);
      (sig in r && slot in r[sig]) <==>
        ((sig in m && slot in m[sig]) ||
         exists k :: 0 <= k < |nested| && nested[k] == slot && h(prefixes[k]) == sig)
  {
    if |nested| > 0 {
      var n := |nested| - 1;
      AddPrefixesMembers(h, m, nested[..n], prefixes[..n], sig, slot);
      var e := exists k :: 0 <= k < n && nested[..n][k] == slot && h(prefixes[..n][k]) == sig;
      var e' := exists k :: 0 <= k < |nested| && nested[k] == slot && h(prefixes[k]) == sig;
      assert e' <==> e || (nested[n] == slot && h(prefixes[n]) == sig) by {
        if e' {
          var k :| 0 <= k < |nested| && nested[k] == slot && h(prefixes[k]) == sig;
          if k < n { assert nested[..n][k] == slot && h(prefixes[..n][k]) == sig; }
        }
        if e {
          var k :| 0 <= k < n && nested[..n][k] == slot && h(prefixes[..n][k]) == sig;
          assert nested[k] == slot && h(prefixes[k]) == sig;
        }
      }
    }
  }

  // ---------------------------------------------------------------------
  // Extraction, as functions of the document
  // ---------------------------------------------------------------------

  /** The last element with that name: a later duplicate overwrites the slot. */
  function LastNamed(d: Doc, name: string): (r: Option<Elem>)
    ensures r.Some? ==> r.value.name == name
    ensures r.None? <==> !HasField(d, name)
  {
    if |d| == 0 then None
    else if d[|d| - 1].name == name then Some(d[|d| - 1])
    else
      var r := LastNamed(d[..|d| - 1], name);
      assert HasField(d, name) <==> HasField(d[..|d| - 1], name) by {
        if HasField(d, name) {
          var i :| 0 <= i < |d| && d[i].name == name;
          assert d[..|d| - 1][i].name == name;
        }
        if HasField(d[..|d| - 1], name) {
          var i :| 0 <= i < |d| - 1 && d[..|d| - 1][i].name == name;
          assert d[i].name == name;
        }
      }
      r
  }

  /** The number of elements whose name is a registered top-level path. */
  function TopHits(d: Doc, fs: seq<string>): nat
  {
    if |d| == 0 then 0
    else
      var e := d[|d| - 1];
      TopHits(d[..|d| - 1], fs) + (if e.name in fs && '.' !in e.name then 1 else 0)
  }

  /** An element is searched for a nested path iff it is an object or array named by the prefix. */
  predicate IsCandidate(e: Elem, p: string)
    requires '.' in p
  {
    IsContainer(e.val) && e.name == Prefix(p)
  }

  /**
   * What one candidate yields for a nested path: in an object, the
   * along-path element, with the array flag set when an array stopped the
   * walk; an array is stored itself, flagged.
   */
  function Probe(e: Elem, p: string): (Option<Elem>, bool)
    requires '.' in p
  {
    if e.val.Obj? then
      var (r, consumed) := DottedPath.AlongPath(e.val.fields, SubPath(p));
      (r, r.Some? && consumed < |SubPath(p)|)
    else (Some(e), true)
  }

  /** One element's effect on a nested slot: only while the slot is still EOO. */
  function NestedStep(e: Elem, p: string, s: (Option<Elem>, bool)): (Option<Elem>, bool)
    requires '.' in p
  {
    if s.0.None? && IsCandidate(e, p) then (Probe(e, p).0, s.1 || Probe(e, p).1) else s
  }

  /** A nested slot and its array flag after scanning a document. */
  function NestedFill(d: Doc, p: string): (Option<Elem>, bool)
    requires '.' in p
  {
    if |d| == 0 then (None, false)
    else NestedStep(d[|d| - 1], p, NestedFill(d[..|d| - 1], p))
  }

  lemma NestedStepIdempotent(e: Elem, p: string, s: (Option<Elem>, bool))
    requires '.' in p
    ensures NestedStep(e, p, NestedStep(e, p, s)) == NestedStep(e, p, s)
  {
  }

  /** The array flag is raised only together with a stored array. */
  lemma {:induction false} FlagMeansArray(d: Doc, p: string)
    requires '.' in p
    ensures NestedFill(d, p).1 ==> NestedFill(d, p).0.Some? && NestedFill(d, p).0.value.val.Arr?
  {
    if |d| > 0 {
      FlagMeansArray(d[..|d| - 1], p);
    }
  }

  /** A nested slot is filled only from an element named by the path's prefix. */
  lemma {:induction false} FilledOnlyFromPrefix(d: Doc, p: string)
    requires '.' in p
    ensures !HasField(d, Prefix(p)) ==> NestedFill(d, p) == (None, false)
  {
    if |d| > 0 {
      FilledOnlyFromPrefix(d[..|d| - 1], p);
      if !HasField(d, Prefix(p)) {
        assert d[|d| - 1].name != Prefix(p);
        var init := d[..|d| - 1];
        assert !HasField(init, Prefix(p)) by {
          forall i | 0 <= i < |init| ensures init[i].name != Prefix(p) {
            assert init[i] == d[i];
          }
        }
      }
    }
  }

  /** The first candidate with a non-EOO answer decides the slot; with none, it stays EOO. */
  lemma {:induction false} FirstAnswerWins(d: Doc, p: string)
    requires '.' in p
    ensures (forall j :: 0 <= j < |d| && IsCandidate(d[j], p) ==> Probe(d[j], p).0.None?) ==>
            NestedFill(d, p).0.None?
    ensures forall j :: 0 <= j < |d| && IsCandidate(d[j], p) && Probe(d[j], p).0.Some? &&
                        (forall k :: 0 <= k < j && IsCandidate(d[k], p) ==> Probe(d[k], p).0.None?) ==>
            NestedFill(d, p).0 == Probe(d[j], p).0
  {
    if |d| > 0 {
      var init := d[..|d| - 1];
      FirstAnswerWins(init, p);
      assert forall j :: 0 <= j < |init| ==> init[j] == d[j];
    }
  }

  // The scan as the header writes it.  Two of its decisions differ from what
  // the surrounding comments and the rest of the class promise; the class
  // below uses the corrected ones.

  /** As written: a candidate is any object or array whose name has the prefix's signature. */
  predicate IsCandidateAsWritten(e: Elem, p: string)
    requires '.' in p
  {
    IsContainer(e.val) && Signature(e.name) == Signature(Prefix(p))
  }

  /** As written: the array flag is raised whenever the walk left part of the path unread. */
  function ProbeAsWritten(e: Elem, p: string): (Option<Elem>, bool)
    requires '.' in p
  {
    if e.val.Obj? then
      var (r, consumed) := DottedPath.AlongPath(e.val.fields, SubPath(p));
      (r, consumed < |SubPath(p)|)
    else (Some(e), true)
  }

  function NestedFillAsWritten(d: Doc, p: string): (Option<Elem>, bool)
    requires '.' in p
  {
    if |d| == 0 then (None, false)
    else
      var s := NestedFillAsWritten(d[..|d| - 1], p);
      var e := d[|d| - 1];
      if s.0.None? && IsCandidateAsWritten(e, p) then
        (ProbeAsWritten(e, p).0, s.1 || ProbeAsWritten(e, p).1)
      else s
  }

  /**
   * A slot registered for "abcd.x" is filled from a field named "acDd",
   * which the document holds instead of "abcd"; the corrected scan leaves it EOO.
   */
  lemma PrefixMatchedBySignatureOnly()
    ensures var d := [Elem("acDd", Obj([Elem("x", Int32(1))]))];
      !HasField(d, "abcd") &&
      NestedFillAsWritten(d, "abcd.x").0 == Some(Elem("x", Int32(1))) &&
      NestedFill(d, "abcd.x").0 == None
  {
    SignatureOnlyAsWritten();
    SignatureOnlyCorrected();
  }

  /** As written: "acDd" shares the signature of "abcd", so its object is walked for "x". */
  lemma SignatureOnlyAsWritten()
    ensures NestedFillAsWritten([Elem("acDd", Obj([Elem("x", Int32(1))]))], "abcd.x").0 == Some(Elem("x", Int32(1)))
  {
    var e := Elem("acDd", Obj([Elem("x", Int32(1))]));
    var d := [e];
    var p := "abcd.x";
    AsWrittenProbeOfCollision(e, p);
    assert d[..0] == [];
    assert NestedFillAsWritten(d[..0], p) == (None, false);
  }

  /** The element "acDd" passes the as-written candidate test for "abcd.x" and yields its "x". */
  lemma AsWrittenProbeOfCollision(e: Elem, p: string)
    requires e == Elem("acDd", Obj([Elem("x", Int32(1))])) && p == "abcd.x"
    ensures '.' in p && IsCandidateAsWritten(e, p) && ProbeAsWritten(e, p).0 == Some(Elem("x", Int32(1)))
  {
    DottedPath.FirstDotAfter("abcd", "x");
    assert Prefix(p) == "abcd" && SubPath(p) == "x";
    SignaturesCollide("abcd", "acDd");
    assert DottedPath.AlongPath([Elem("x", Int32(1))], "x") == (Some(Elem("x", Int32(1))), 1);
  }

  /** Corrected: the names differ, so "acDd" is not a candidate and the slot stays EOO. */
  lemma SignatureOnlyCorrected()
    ensures var d := [Elem("acDd", Obj([Elem("x", Int32(1))]))];
      !HasField(d, "abcd") && NestedFill(d, "abcd.x").0 == None
  {
    var d := [Elem("acDd", Obj([Elem("x", Int32(1))]))];
    var p := "abcd.x";
    DottedPath.FirstDotAfter("abcd", "x");
    assert Prefix(p) == "abcd";
    assert d[..0] == [];
    assert "acDd"[1] != "abcd"[1];
    assert !HasField(d, "abcd") by {
      forall i | 0 <= i < |d| ensures d[i].name != "abcd" {
        assert d[i].name[1] == 'c';
      }
    }
  }

  /**
   * In {a: {}} the path "a.b.c" meets no array, yet the slot is flagged as
   * having one; the corrected flag stays down.
   */
  lemma MissingPathFlaggedAsArray()
    ensures var d := [Elem("a", Obj([]))];
      NestedFillAsWritten(d, "a.b.c") == (None, true) &&
      NestedFill(d, "a.b.c") == (None, false)
  {
    var d := [Elem("a", Obj([]))];
    var p := "a.b.c";
    DottedPath.FirstDotAfter("a", "b.c");
    assert Prefix(p) == "a" && SubPath(p) == "b.c";
    DottedPath.FirstDotAfter("b", "c");
    assert DottedPath.AlongPath([], "b.c") == (None, 2);
    assert d[..0] == [];
  }

  // ---------------------------------------------------------------------
  // Counting filled nested slots
  // ---------------------------------------------------------------------

  /** The number of filled nested slots. */
  function FilledNested(slots: seq<Option<Elem>>, nested: seq<bool>): nat
    requires |slots| == |nested|
  {
    if |slots| == 0 then 0
    else
      var n := |slots| - 1;
      FilledNested(slots[..n], nested[..n]) + (if nested[n] && slots[n].Some? then 1 else 0)
  }

  lemma {:induction false} FilledNestedUpdate(slots: seq<Option<Elem>>, nested: seq<bool>, i: nat, x: Option<Elem>)
    requires |slots| == |nested| && i < |slots|
    ensures FilledNested(slots[i := x], nested) ==
      FilledNested(slots, nested) - (if nested[i] && slots[i].Some? then 1 else 0)
                                  + (if nested[i] && x.Some? then 1 else 0)
  {
    var n := |slots| - 1;
    if i < n {
      FilledNestedUpdate(slots[..n], nested[..n], i, x);
      assert slots[i := x][..n] == slots[..n][i := x];
    } else {
      assert slots[i := x][..n] == slots[..n];
    }
  }

  // ---------------------------------------------------------------------
  // The registry's invariants, over its field values
  // ---------------------------------------------------------------------
  //
  // The signature invariants and the lemmas that keep them are stated for
  // any signature function `h`: a lookup finds every registered path
  // whatever the hash, and a collision only sends a path to the collision
  // list.  The class instantiates `h` with `Signature`.

  /** A path is nested exactly when it holds a dot. */
  ghost predicate Classified(fields: seq<string>, isNested: seq<bool>)
  {
    |isNested| == |fields| && forall i :: 0 <= i < |fields| ==> isNested[i] == ('.' in fields[i])
  }

  /** The flags `NestedFlags` computes classify each path by its dot. */
  lemma {:induction false} NestedFlagsClassified(fs: seq<string>)
    ensures Classified(fs, NestedFlags(fs))
  {
    if |fs| > 0 {
      var init := fs[..|fs| - 1];
      NestedFlagsClassified(init);
      assert forall i :: 0 <= i < |init| ==> fs[i] == init[i];
    }
  }

  /**
   * `_sigToSlot` after registering `fs` in order: each signature maps to
   * the first path that has it.
   */
  function SigToSlotOf(h: string -> nat, fs: seq<string>): map<nat, nat>
  {
    if |fs| == 0 then map[]
    else
      var n := |fs| - 1;
      var m := SigToSlotOf(h, fs[..n]);
      if h(fs[n]) in m then m else m[h(fs[n]) := n]
  }

  /**
   * `_collisionSlots` after registering `fs` in order: every later path
   * whose signature is already mapped, appended under that signature.
   */
  function CollisionsOf(h: string -> nat, fs: seq<string>): map<nat, seq<nat>>
  {
    if |fs| == 0 then map[]
    else
      var n := |fs| - 1;
      var c := CollisionsOf(h, fs[..n]);
      var s := h(fs[n]);
      if s in SigToSlotOf(h, fs[..n]) then c[s := (if s in c then c[s] else []) + [n]] else c
  }

  /** `_sigToSlot` points each signature at a path that has it. */
  lemma {:induction false} SigToSlotSound(h: string -> nat, fs: seq<string>, s: nat)
    requires s in SigToSlotOf(h, fs)
    ensures SigToSlotOf(h, fs)[s] < |fs| && h(fs[SigToSlotOf(h, fs)[s]]) == s
  {
    var n := |fs| - 1;
    if s in SigToSlotOf(h, fs[..n]) {
      SigToSlotSound(h, fs[..n], s);
      assert fs[SigToSlotOf(h, fs)[s]] == fs[..n][SigToSlotOf(h, fs)[s]];
    }
  }

  /**
   * A collision list belongs to a mapped signature; its entries are paths
   * with that signature other than the mapped one.
   */
  lemma {:induction false} CollisionsSound(h: string -> nat, fs: seq<string>, s: nat)
    requires s in CollisionsOf(h, fs)
    ensures s in SigToSlotOf(h, fs)
    ensures forall k :: 0 <= k < |CollisionsOf(h, fs)[s]| ==>
      CollisionsOf(h, fs)[s][k] < |fs| && h(fs[CollisionsOf(h, fs)[s][k]]) == s &&
      CollisionsOf(h, fs)[s][k] != SigToSlotOf(h, fs)[s]
  {
    var n := |fs| - 1;
    var init := fs[..n];
    var c := CollisionsOf(h, init);
    if s in c {
      CollisionsSound(h, init, s);
    }
    if s in SigToSlotOf(h, init) {
      SigToSlotSound(h, init, s);
    }
    assert forall j :: 0 <= j < n ==> fs[j] == init[j];
  }

  /** Every registered path is found: `_sigToSlot` points at it or its collision list holds it. */
  lemma {:induction false} PathFound(h: string -> nat, fs: seq<string>, i: nat)
    requires i < |fs|
    ensures h(fs[i]) in SigToSlotOf(h, fs)
    ensures SigToSlotOf(h, fs)[h(fs[i])] == i ||
            (h(fs[i]) in CollisionsOf(h, fs) && i in CollisionsOf(h, fs)[h(fs[i])])
  {
    var n := |fs| - 1;
    var init := fs[..n];
    if i < n {
      PathFound(h, init, i);
      assert init[i] == fs[i];
    }
  }

  /** The collision lists hold exactly the paths `_sigToSlot` does not point at. */
  lemma {:induction false} CollisionTotal(h: string -> nat, fs: seq<string>)
    ensures SumLens(CollisionsOf(h, fs)) + |SigToSlotOf(h, fs).Keys| == |fs|
  {
    if |fs| > 0 {
      var n := |fs| - 1;
      var init := fs[..n];
      CollisionTotal(h, init);
      var s := h(fs[n]);
      var m := SigToSlotOf(h, init);
      var c := CollisionsOf(h, init);
      if s in m {
        SumLensUpdate(c, s, (if s in c then c[s] else []) + [n]);
      } else {
        assert m[s := n].Keys == m.Keys + {s};
      }
    }
  }

  /** Every slot listed under a signature is nested, and its prefix has that signature. */
  ghost predicate PrefixIndexSound(h: string -> nat, fields: seq<string>, index: map<nat, seq<nat>>)
  {
    forall s :: s in index ==> forall k :: 0 <= k < |index[s]| ==>
      index[s][k] < |fields| && '.' in fields[index[s][k]] && h(Prefix(fields[index[s][k]])) == s
  }

  /** Every nested slot is listed under its prefix's signature. */
  ghost predicate PrefixIndexComplete(h: string -> nat, fields: seq<string>, index: map<nat, seq<nat>>)
  {
    forall i :: 0 <= i < |fields| && '.' in fields[i] ==>
      h(Prefix(fields[i])) in index && i in index[h(Prefix(fields[i]))]
  }

  /** The prefix index `finalize` builds lists every nested slot, and only nested slots. */
  lemma BuiltPrefixIndex(h: string -> nat, fields: seq<string>, nested: seq<nat>, prefixes: seq<string>,
                         m0: map<nat, seq<nat>>)
    requires nested == Nested(fields) && prefixes == Prefixes(fields) && |nested| == |prefixes|
    requires PrefixIndexSound(h, fields, m0)
    ensures PrefixIndexSound(h, fields, AddPrefixes(h, m0, nested, prefixes))
    ensures PrefixIndexComplete(h, fields, AddPrefixes(h, m0, nested, prefixes))
  {
    var index := AddPrefixes(h, m0, nested, prefixes);
    NestedSlots(fields);
    forall s, k | s in index && 0 <= k < |index[s]|
      ensures index[s][k] < |fields| && '.' in fields[index[s][k]] && h(Prefix(fields[index[s][k]])) == s
    {
      var slot := index[s][k];
      AddPrefixesMembers(h, m0, nested, prefixes, s, slot);
      if !(s in m0 && slot in m0[s]) {
        var j :| 0 <= j < |nested| && nested[j] == slot && h(prefixes[j]) == s;
      }
    }
    forall i | 0 <= i < |fields| && '.' in fields[i]
      ensures h(Prefix(fields[i])) in index && i in index[h(Prefix(fields[i]))]
    {
      var j :| 0 <= j < |nested| && nested[j] == i;
      AddPrefixesMembers(h, m0, nested, prefixes, h(Prefix(fields[i])), i);
    }
  }

  /** Appending a path keeps the paths distinct exactly when it is new. */
  lemma AppendDistinct(fields: seq<string>, path: string)
    ensures Distinct(fields + [path]) <==> Distinct(fields) && path !in fields
  {
    assert (fields + [path])[..|fields|] == fields;
  }

  /** Registering one more path extends the layout by that path alone. */
  lemma AppendLayout(fields: seq<string>, path: string)
    ensures var fs := fields + [path]; var n := |fields|;
      NestedFlags(fs) == NestedFlags(fields) + ['.' in path] &&
      TopLevel(fs) == TopLevel(fields) + (if '.' in path then [] else [n]) &&
      Nested(fs) == Nested(fields) + (if '.' in path then [n] else []) &&
      Prefixes(fs) == Prefixes(fields) + (if '.' in path then [Prefix(path)] else [])
  {
    assert (fields + [path])[..|fields|] == fields;
  }

  /**
   * Registering one more path maps its signature to its slot when the
   * signature is new, and otherwise appends the slot to its collision list.
   */
  lemma AppendSignatures(h: string -> nat, fields: seq<string>, path: string)
    ensures var fs := fields + [path]; var n := |fields|; var s := h(path);
      var m := SigToSlotOf(h, fields); var c := CollisionsOf(h, fields);
      SigToSlotOf(h, fs) == (if s in m then m else m[s := n]) &&
      CollisionsOf(h, fs) == (if s in m then c[s := (if s in c then c[s] else []) + [n]] else c)
  {
    assert (fields + [path])[..|fields|] == fields;
  }

  /** The values `registerField` derives from the registered paths. */
  datatype Registry = Registry(isNested: seq<bool>, topLevelSlots: seq<nat>, nestedSlots: seq<nat>,
                               nestedPrefixes: seq<string>, sigToSlot: map<nat, nat>,
                               collisionSlots: map<nat, seq<nat>>)

  /** The derived values after registering `fs` in order, under signature function `h`. */
  function RegistryOf(h: string -> nat, fs: seq<string>): Registry
  {
    Registry(NestedFlags(fs), TopLevel(fs), Nested(fs), Prefixes(fs), SigToSlotOf(h, fs), CollisionsOf(h, fs))
  }

  /**
   * The new-path half of `registerField`, over the registry's values: the
   * path takes the next slot, is classified by its first dot, and its
   * signature is mapped to the slot or, when already mapped, the slot joins
   * that signature's collision list.
   */
  method AppendValues(h: string -> nat, fields: seq<string>, r: Registry, path: string, sig: nat)
    returns (r': Registry)
    requires r == RegistryOf(h, fields) && sig == h(path)
    ensures r' == RegistryOf(h, fields + [path])
  {
    var slot := |fields|;
    AppendLayout(fields, path);
    AppendSignatures(h, fields, path);
    var sigToSlot, collisionSlots := r.sigToSlot, r.collisionSlots;
    if sig in sigToSlot {
      collisionSlots := collisionSlots[sig := (if sig in collisionSlots then collisionSlots[sig] else []) + [slot]];
    } else {
      sigToSlot := sigToSlot[sig := slot];
    }
    var dot := DottedPath.FirstDot(path);
    if dot.None? {
      r' := Registry(r.isNested + [false], r.topLevelSlots + [slot], r.nestedSlots, r.nestedPrefixes,
                     sigToSlot, collisionSlots);
    } else {
      r' := Registry(r.isNested + [true], r.topLevelSlots, r.nestedSlots + [slot],
                     r.nestedPrefixes + [path[..dot.value]], sigToSlot, collisionSlots);
    }
  }

  /**
   * What registration guarantees a lookup by signature: `_sigToSlot` and
   * the collision list point at paths, the collision list leaves out the
   * `_sigToSlot` slot, and a registered name is found in one of the two.
   */
  /**
   * What the two tables say about one signature: the primary slot and the
   * collision slots are in range and distinct, and a configured name is found
   * at one of them.
   */
  predicate SlotLookup(fields: seq<string>, sigToSlot: map<nat, nat>, collisionSlots: map<nat, seq<nat>>,
                       name: string, sig: nat)
  {
    (sig in sigToSlot ==> sigToSlot[sig] < |fields|) &&
    (sig in collisionSlots ==>
       (sig in sigToSlot &&
        forall k :: 0 <= k < |collisionSlots[sig]| ==>
          collisionSlots[sig][k] < |fields| && collisionSlots[sig][k] != sigToSlot[sig])) &&
    (name in fields ==>
       (sig in sigToSlot &&
        (sigToSlot[sig] == IndexOf(fields, name) ||
         (sig in collisionSlots && IndexOf(fields, name) in collisionSlots[sig]))))
  }

  lemma LookupFacts(h: string -> nat, fields: seq<string>, name: string)
    ensures SlotLookup(fields, SigToSlotOf(h, fields), CollisionsOf(h, fields), name, h(name))
  {
    var sig := h(name);
    if sig in SigToSlotOf(h, fields) {
      SigToSlotSound(h, fields, sig);
    }
    if sig in CollisionsOf(h, fields) {
      CollisionsSound(h, fields, sig);
    }
    if name in fields {
      PathFound(h, fields, IndexOf(fields, name));
    }
  }

  /** A scan of a collision list for the path: the first listed slot holding it. */
  method ScanCollisions(fields: seq<string>, list: seq<nat>, path: string) returns (found: Option<nat>)
    requires forall k :: 0 <= k < |list| ==> list[k] < |fields|
    ensures found.Some? ==> found.value in list && fields[found.value] == path
    ensures found.None? ==> forall k :: 0 <= k < |list| ==> fields[list[k]] != path
  {
    var k := 0;
    while k < |list|
      invariant 0 <= k <= |list|
      invariant forall j :: 0 <= j < k ==> fields[list[j]] != path
    {
      if fields[list[k]] == path {
        return Some(list[k]);
      }
      k := k + 1;
    }
    return None;
  }

  /**
   * The lookup half of `registerField`: the slot under the signature, a
   * scan of all paths when that slot holds another path, then the
   * collision list.  It finds exactly the registered paths.
   */
  method FindRegistered(fields: seq<string>, sigToSlot: map<nat, nat>, collisionSlots: map<nat, seq<nat>>,
                        path: string, sig: nat)
    returns (found: Option<nat>)
    requires Distinct(fields)
    requires sig in sigToSlot ==> sigToSlot[sig] < |fields|
    requires sig in collisionSlots ==>
      forall k :: 0 <= k < |collisionSlots[sig]| ==> collisionSlots[sig][k] < |fields|
    requires path in fields ==> sig in sigToSlot
    ensures found.Some? <==> path in fields
    ensures found.Some? ==> found.value == IndexOf(fields, path)
  {
    if sig in sigToSlot {
      var slot := sigToSlot[sig];
      if fields[slot] == path {
        DistinctIndexOf(fields, slot);
        return Some(slot);
      }
      var i := 0;
      while i < |fields|
        invariant 0 <= i <= |fields|
        invariant forall j :: 0 <= j < i ==> fields[j] != path
      {
        if fields[i] == path {
          return Some(i);
        }
        i := i + 1;
      }
    }
    found := None;
    if sig in collisionSlots {
      found := ScanCollisions(fields, collisionSlots[sig], path);
    }
  }

  /** A path appended after the others takes the last slot. */
  lemma IndexOfAppended(fs: seq<string>, p: string)
    requires p !in fs
    ensures p in fs + [p] && IndexOf(fs + [p], p) == |fs|
  {
    assert (fs + [p])[|fs|] == p;
    assert forall j :: 0 <= j < |fs| ==> (fs + [p])[j] == fs[j];
  }

  /**
   * One `registerField` inside `registerIndex`: the slots of the earlier
   * paths stay, and the path adds its slot unless it was refused.
   */
  lemma RegisterStep(before: seq<string>, after: seq<string>, done: seq<string>, p: string, slot: nat)
    requires |before| <= MAX_FIELDS - 1
    requires after == if p !in before && |before| < MAX_FIELDS - 1 then before + [p] else before
    requires slot == Registered(before, p)
    requires forall q :: q in done && q !in before ==> |before| >= MAX_FIELDS - 1
    ensures SlotsOf(after, done + [p]) == SlotsOf(before, done) + (if slot != INVALID_SLOT then [slot] else [])
    ensures forall q :: q in done + [p] && q !in after ==> |after| >= MAX_FIELDS - 1
  {
    assert (done + [p])[..|done|] == done;
    if after != before {
      assert forall k :: 0 <= k < |done| ==> done[k] in before;
      SlotsOfStable(before, p, done);
      IndexOfAppended(before, p);
    }
  }

  /** The signatures of the dot-free paths. */
  function TopSigs(fs: seq<string>): set<nat>
  {
    set i | 0 <= i < |fs| && '.' !in fs[i] :: Signature(fs[i])
  }

  /** The signatures of the paths at the listed slots. */
  function SigsOf(fs: seq<string>, slots: seq<nat>): set<nat>
  {
    set j | 0 <= j < |slots| && slots[j] < |fs| :: Signature(fs[slots[j]])
  }

  lemma SigsOfSnoc(fs: seq<string>, slots: seq<nat>, x: nat)
    ensures SigsOf(fs, slots + [x]) == SigsOf(fs, slots) + (if x < |fs| then {Signature(fs[x])} else {})
  {
    var a := SigsOf(fs, slots + [x]);
    var b := SigsOf(fs, slots) + (if x < |fs| then {Signature(fs[x])} else {});
    forall s | s in a ensures s in b {
      var j :| 0 <= j < |slots| + 1 && (slots + [x])[j] < |fs| && Signature(fs[(slots + [x])[j]]) == s;
      if j < |slots| {
        assert (slots + [x])[j] == slots[j];
      }
    }
    forall s | s in b ensures s in a {
      if s in SigsOf(fs, slots) {
        var j :| 0 <= j < |slots| && slots[j] < |fs| && Signature(fs[slots[j]]) == s;
        assert (slots + [x])[j] == slots[j];
      } else {
        assert (slots + [x])[|slots|] == x;
      }
    }
  }

  /** `finalize`'s loop over the top-level slots collects the signatures of the dot-free paths. */
  lemma TopSigsBySlots(fs: seq<string>)
    ensures SigsOf(fs, TopLevel(fs)) == TopSigs(fs)
  {
    TopLevelSlots(fs);
    var top := TopLevel(fs);
    forall s | s in TopSigs(fs) ensures s in SigsOf(fs, top) {
      var i :| 0 <= i < |fs| && '.' !in fs[i] && Signature(fs[i]) == s;
      var j :| 0 <= j < |top| && top[j] == i;
    }
  }

  /** `finalize`'s first loop: the signature of every path at the listed slots. */
  method CollectTopSigs(fields: seq<string>, top: seq<nat>, sigs0: set<nat>) returns (sigs: set<nat>)
    requires forall k :: 0 <= k < |top| ==> top[k] < |fields|
    ensures sigs == sigs0 + SigsOf(fields, top)
  {
    sigs := sigs0;
    var k := 0;
    while k < |top|
      invariant 0 <= k <= |top|
      invariant sigs == sigs0 + SigsOf(fields, top[..k])
    {
      var sig := MakeSignature(fields[top[k]]);
      assert top[..k + 1] == top[..k] + [top[k]];
      SigsOfSnoc(fields, top[..k], top[k]);
      sigs := sigs + {sig};
      k := k + 1;
    }
    assert top[..k] == top;
  }

  /** `finalize`'s second loop: each nested slot appended under its prefix's signature. */
  method IndexPrefixes(nested: seq<nat>, prefixes: seq<string>, m0: map<nat, seq<nat>>)
    returns (index: map<nat, seq<nat>>)
    requires |nested| == |prefixes|
    ensures index == AddPrefixes(Signature, m0, nested, prefixes)
  {
    index := m0;
    var i := 0;
    while i < |nested|
      invariant 0 <= i <= |nested|
      invariant index == AddPrefixes(Signature, m0, nested[..i], prefixes[..i])
    {
      var sig := MakeSignature(prefixes[i]);
      assert nested[..i + 1][..i] == nested[..i];
      assert prefixes[..i + 1][..i] == prefixes[..i];
      index := index[sig := (if sig in index then index[sig] else []) + [nested[i]]];
      i := i + 1;
    }
    assert nested[..i] == nested && prefixes[..i] == prefixes;
  }

  /**
   * `finalize` over the registry's values: the top-level signatures are
   * collected, and every nested slot is appended under its prefix's
   * signature, which leaves an index that lists exactly the nested slots.
   */
  method FinalizeValues(fields: seq<string>, r: Registry, sigs0: set<nat>, index0: map<nat, seq<nat>>)
    returns (sigs: set<nat>, index: map<nat, seq<nat>>)
    requires r == RegistryOf(Signature, fields) && PrefixIndexSound(Signature, fields, index0)
    ensures sigs == sigs0 + TopSigs(fields)
    ensures index == AddPrefixes(Signature, index0, r.nestedSlots, r.nestedPrefixes)
    ensures PrefixIndexSound(Signature, fields, index) && PrefixIndexComplete(Signature, fields, index)
  {
    TopLevelSlots(fields);
    sigs := CollectTopSigs(fields, r.topLevelSlots, sigs0);
    TopSigsBySlots(fields);
    index := IndexPrefixes(r.nestedSlots, r.nestedPrefixes, index0);
    BuiltPrefixIndex(Signature, fields, r.nestedSlots, r.nestedPrefixes, index0);
  }

  // ---------------------------------------------------------------------
  // One scan step, over the registry's values
  // ---------------------------------------------------------------------

  /**
   * The slots, flags and count after scanning the elements of `d`: a
   * top-level slot holds the last element of its name and no flag; a
   * nested slot and its flag are as `NestedFill` says; the count is the
   * top-level hits plus the filled nested slots.
   */
  ghost predicate Scanned(fields: seq<string>, isNested: seq<bool>, slots: seq<Option<Elem>>, flags: seq<bool>,
                          count: int, d: Doc)
  {
    |slots| == |fields| && |flags| == |fields| && |isNested| == |fields| &&
    (forall i :: 0 <= i < |fields| && '.' !in fields[i] ==> slots[i] == LastNamed(d, fields[i]) && !flags[i]) &&
    (forall i :: 0 <= i < |fields| && '.' in fields[i] ==> (slots[i], flags[i]) == NestedFill(d, fields[i])) &&
    count == TopHits(d, fields) + FilledNested(slots, isNested)
  }

  lemma {:induction false} NoneFilled(s: seq<Option<Elem>>, nested: seq<bool>)
    requires |s| == |nested| && forall i :: 0 <= i < |s| ==> s[i].None?
    ensures FilledNested(s, nested) == 0
  {
    if |s| > 0 {
      NoneFilled(s[..|s| - 1], nested[..|nested| - 1]);
    }
  }

  /** Slots that agree on every nested position have the same nested count. */
  lemma {:induction false} FilledNestedAgree(s1: seq<Option<Elem>>, s2: seq<Option<Elem>>, nested: seq<bool>)
    requires |s1| == |nested| && |s2| == |nested|
    requires forall i :: 0 <= i < |nested| && nested[i] ==> s1[i] == s2[i]
    ensures FilledNested(s1, nested) == FilledNested(s2, nested)
  {
    if |nested| > 0 {
      var n := |nested| - 1;
      FilledNestedAgree(s1[..n], s2[..n], nested[..n]);
    }
  }

  /**
   * The top-level half of a scan step: the slot `sigToSlot` names, then
   * the signature's collision list, each taken only when the path is the
   * element's name and not nested.
   */
  method MatchTopLevel(fields: seq<string>, isNested: seq<bool>, sigToSlot: map<nat, nat>,
                       collisionSlots: map<nat, seq<nat>>, slots: seq<Option<Elem>>, count: nat,
                       e: Elem, sig: nat)
    returns (slots': seq<Option<Elem>>, count': nat)
    requires Distinct(fields) && Classified(fields, isNested) && |slots| == |fields|
    requires SlotLookup(fields, sigToSlot, collisionSlots, e.name, sig)
    ensures |slots'| == |fields|
    ensures forall i :: 0 <= i < |fields| ==>
      slots'[i] == if '.' !in fields[i] && fields[i] == e.name then Some(e) else slots[i]
    ensures count' == count + (if e.name in fields && '.' !in e.name then 1 else 0)
  {
    if e.name in fields {
      DistinctSlots(fields, e.name);
    }
    ghost var target: int := if e.name in fields && '.' !in e.name then IndexOf(fields, e.name) else -1;
    slots', count' := slots, count;
    var hit := false;
    if sig in sigToSlot {
      var slot := sigToSlot[sig];
      if !isNested[slot] && fields[slot] == e.name {
        slots' := slots'[slot := Some(e)];
        count' := count' + 1;
        hit := true;
      }
    }
    if sig in collisionSlots {
      var list := collisionSlots[sig];
      var k := 0;
      while k < |list|
        invariant 0 <= k <= |list|
        invariant hit ==> target >= 0 && slots' == slots[target := Some(e)] && count' == count + 1 &&
                          forall m :: 0 <= m < |list| ==> list[m] != target
        invariant !hit ==> slots' == slots && count' == count && forall m :: 0 <= m < k ==> list[m] != target
      {
        var slot := list[k];
        if !isNested[slot] && fields[slot] == e.name {
          slots' := slots'[slot := Some(e)];
          count' := count' + 1;
          hit := true;
          break;
        }
        k := k + 1;
      }
    }
  }

  /**
   * One indexed slot: while it is still EOO and the element is named by
   * the path's prefix, the object is walked along the rest of the path,
   * or the array is stored; the count grows when the slot is filled.
   */
  method ProbeSlot(fields: seq<string>, isNested: seq<bool>, slots: seq<Option<Elem>>, flags: seq<bool>,
                   count: nat, e: Elem, slot: nat)
    returns (slots': seq<Option<Elem>>, flags': seq<bool>, count': nat)
    requires Classified(fields, isNested) && |slots| == |fields| && |flags| == |fields|
    requires slot < |fields| && '.' in fields[slot] && IsContainer(e.val)
    ensures slots' == slots[slot := NestedStep(e, fields[slot], (slots[slot], flags[slot])).0]
    ensures flags' == flags[slot := NestedStep(e, fields[slot], (slots[slot], flags[slot])).1]
    ensures count' + FilledNested(slots, isNested) == count + FilledNested(slots', isNested)
  {
    slots', flags', count' := slots, flags, count;
    var path := fields[slot];
    if slots[slot].None? && Prefix(path) == e.name {
      var (r, flag) := Probe(e, path);
      FilledNestedUpdate(slots, isNested, slot, r);
      slots' := slots[slot := r];
      flags' := flags[slot := flags[slot] || flag];
      if r.Some? {
        count' := count + 1;
      }
    }
  }

  /**
   * The nested half of a scan step: every slot indexed under the element's
   * signature takes one `NestedStep`; slots indexed elsewhere are not
   * candidates for this element.
   */
  method MatchNested(h: string -> nat, fields: seq<string>, isNested: seq<bool>, index: map<nat, seq<nat>>,
                     slots: seq<Option<Elem>>, flags: seq<bool>, count: nat, e: Elem, sig: nat)
    returns (slots': seq<Option<Elem>>, flags': seq<bool>, count': nat)
    requires Classified(fields, isNested) && PrefixIndexSound(h, fields, index) && PrefixIndexComplete(h, fields, index)
    requires |slots| == |fields| && |flags| == |fields| && sig == h(e.name) && IsContainer(e.val)
    ensures |slots'| == |fields| && |flags'| == |fields|
    ensures forall i :: 0 <= i < |fields| && '.' !in fields[i] ==> slots'[i] == slots[i] && flags'[i] == flags[i]
    ensures forall i :: 0 <= i < |fields| && '.' in fields[i] ==>
      (slots'[i], flags'[i]) == NestedStep(e, fields[i], (slots[i], flags[i]))
    ensures count' + FilledNested(slots, isNested) == count + FilledNested(slots', isNested)
  {
    slots', flags', count' := slots, flags, count;
    if sig in index {
      var list := index[sig];
      var k := 0;
      while k < |list|
        invariant 0 <= k <= |list|
        invariant |slots'| == |fields| && |flags'| == |fields|
        invariant count' + FilledNested(slots, isNested) == count + FilledNested(slots', isNested)
        invariant forall i :: 0 <= i < |fields| && '.' !in fields[i] ==> slots'[i] == slots[i] && flags'[i] == flags[i]
        invariant forall i :: 0 <= i < |fields| && '.' in fields[i] ==>
          (slots'[i], flags'[i]) ==
            if i in list[..k] then NestedStep(e, fields[i], (slots[i], flags[i])) else (slots[i], flags[i])
      {
        var slot := list[k];
        NestedStepIdempotent(e, fields[slot], (slots[slot], flags[slot]));
        slots', flags', count' := ProbeSlot(fields, isNested, slots', flags', count', e, slot);
        assert list[..k + 1] == list[..k] + [slot];
        k := k + 1;
      }
      assert list[..k] == list;
    }
  }

  /** One step of the scan: the element's top-level match, then its nested matches. */
  method ScanElement(fields: seq<string>, isNested: seq<bool>, sigToSlot: map<nat, nat>,
                     collisionSlots: map<nat, seq<nat>>, index: map<nat, seq<nat>>,
                     slots: seq<Option<Elem>>, flags: seq<bool>, count: nat, seen: Doc, e: Elem)
    returns (slots': seq<Option<Elem>>, flags': seq<bool>, count': nat)
    requires Distinct(fields) && Classified(fields, isNested)
    requires sigToSlot == SigToSlotOf(Signature, fields) && collisionSlots == CollisionsOf(Signature, fields)
    requires PrefixIndexSound(Signature, fields, index) && PrefixIndexComplete(Signature, fields, index)
    requires Scanned(fields, isNested, slots, flags, count, seen)
    ensures Scanned(fields, isNested, slots', flags', count', seen + [e])
  {
    var sig := MakeSignature(e.name);
    LookupFacts(Signature, fields, e.name);
    var top;
    top, count' := MatchTopLevel(fields, isNested, sigToSlot, collisionSlots, slots, count, e, sig);
    FilledNestedAgree(top, slots, isNested);
    if IsContainer(e.val) {
      slots', flags', count' := MatchNested(Signature, fields, isNested, index, top, flags, count', e, sig);
    } else {
      slots', flags' := top, flags;
    }
    var d := seen + [e];
    assert d[..|seen|] == seen;
  }

  /** `extract`'s scan: every slot and flag cleared, then one step per element. */
  method Scan(fields: seq<string>, isNested: seq<bool>, sigToSlot: map<nat, nat>,
              collisionSlots: map<nat, seq<nat>>, index: map<nat, seq<nat>>, doc: Doc)
    returns (slots: seq<Option<Elem>>, flags: seq<bool>, count: nat)
    requires Distinct(fields) && Classified(fields, isNested)
    requires sigToSlot == SigToSlotOf(Signature, fields) && collisionSlots == CollisionsOf(Signature, fields)
    requires PrefixIndexSound(Signature, fields, index) && PrefixIndexComplete(Signature, fields, index)
    ensures Scanned(fields, isNested, slots, flags, count, doc)
  {
    slots := seq(|fields|, _ => None);
    flags := seq(|fields|, _ => false);
    count := 0;
    NoneFilled(slots, isNested);
    assert doc[..0] == [];
    var j := 0;
    while j < |doc|
      invariant 0 <= j <= |doc|
      invariant Scanned(fields, isNested, slots, flags, count, doc[..j])
    {
      assert doc[..j + 1] == doc[..j] + [doc[j]];
      slots, flags, count := ScanElement(fields, isNested, sigToSlot, collisionSlots, index,
                                         slots, flags, count, doc[..j], doc[j]);
      j := j + 1;
    }
    assert doc[..j] == doc;
  }

  // ---------------------------------------------------------------------
  // The extractor
  // ---------------------------------------------------------------------

  /** At most 255 distinct paths, with the registry derived from them. */
  ghost predicate RegistryHolds(fields: seq<string>, r: Registry)
  {
    |fields| <= MAX_FIELDS - 1 && Distinct(fields) && r == RegistryOf(Signature, fields)
  }

  /** Registering a new path while there is room keeps the registry derived from the paths. */
  method AppendRegistry(fields: seq<string>, r: Registry, path: string, sig: nat) returns (r': Registry)
    requires RegistryHolds(fields, r) && path !in fields && |fields| < MAX_FIELDS - 1 && sig == Signature(path)
    ensures RegistryHolds(fields + [path], r')
  {
    AppendDistinct(fields, path);
    r' := AppendValues(Signature, fields, r, path, sig);
  }

  class UnifiedFieldExtractor {
    var fields: seq<string>
    var isNested: seq<bool>
    var nestedPrefixes: seq<string>
    var topLevelSlots: seq<nat>
    var nestedSlots: seq<nat>
    var sigToSlot: map<nat, nat>
    var collisionSlots: map<nat, seq<nat>>
    var finalized: bool
    var topLevelSigs: set<nat>
    var nestedPrefixSigs: map<nat, seq<nat>>
    var indexSlots: map<string, seq<nat>>
    var digestSlots: map<string, seq<nat>>
    var slots: seq<Option<Elem>>
    var hasArrayAlongPath: seq<bool>
    var extractedCount: nat

    /** The registry's invariant, over the fields `registerField` and `finalize` maintain. */
    ghost predicate Valid()
      reads this`fields, this`isNested, this`topLevelSlots, this`nestedSlots, this`nestedPrefixes,
            this`sigToSlot, this`collisionSlots, this`nestedPrefixSigs, this`finalized, this`topLevelSigs
    {
      RegistryHolds(fields, Registry(isNested, topLevelSlots, nestedSlots, nestedPrefixes, sigToSlot, collisionSlots)) &&
      (finalized ==>
         PrefixIndexSound(Signature, fields, nestedPrefixSigs) &&
         PrefixIndexComplete(Signature, fields, nestedPrefixSigs)) &&
      (!finalized ==> nestedPrefixSigs == map[] && topLevelSigs == {})
    }

    /** Slots and flags exist, one per path, exactly after `finalize`. */
    ghost predicate Sized()
      reads this`fields, this`finalized, this`slots, this`hasArrayAlongPath
    {
      (!finalized ==> slots == [] && hasArrayAlongPath == []) &&
      (finalized ==> |slots| == |fields| && |hasArrayAlongPath| == |fields|)
    }

    constructor()
      ensures Valid() && Sized() && fields == [] && !finalized
      ensures indexSlots == map[] && digestSlots == map[] && extractedCount == 0
    {
      fields, isNested, nestedPrefixes := [], [], [];
      topLevelSlots, nestedSlots := [], [];
      sigToSlot, collisionSlots := map[], map[];
      finalized := false;
      topLevelSigs, nestedPrefixSigs := {}, map[];
      indexSlots, digestSlots := map[], map[];
      slots, hasArrayAlongPath := [], [];
      extractedCount := 0;
    }

    /** Whether a call to `registerField(p)` stores p. */
    ghost predicate Grows(p: string)
      reads this`finalized, this`fields
    {
      !finalized && p !in fields && |fields| < MAX_FIELDS - 1
    }

    /**
     * `registerField`: the existing slot of a known path, a fresh slot (the
     * next one) for a new path, or `kInvalidSlot` after `finalize` or when
     * 255 paths are registered.
     */
    method RegisterField(path: string) returns (slot: nat)
      requires Valid()
      modifies this`fields, this`isNested, this`nestedPrefixes, this`topLevelSlots, this`nestedSlots,
               this`sigToSlot, this`collisionSlots
      ensures Valid()
      ensures slot == if finalized then INVALID_SLOT else Registered(old(fields), path)
      ensures fields == if old(Grows(path)) then old(fields) + [path] else old(fields)
    {
      if finalized {
        return INVALID_SLOT;
      }
      var sig := MakeSignature(path);
      LookupFacts(Signature, fields, path);
      var found := FindRegistered(fields, sigToSlot, collisionSlots, path, sig);
      if found.Some? {
        return found.value;
      }
      if |fields| >= MAX_FIELDS - 1 {
        return INVALID_SLOT;
      }
      slot := |fields|;
      AppendField(path, sig);
    }

    /** The new-path half of `registerField`: the slot, its signature entry and its classification. */
    method AppendField(path: string, sig: nat)
      requires Valid() && !finalized && path !in fields && |fields| < MAX_FIELDS - 1 && sig == Signature(path)
      modifies this`fields, this`isNested, this`nestedPrefixes, this`topLevelSlots, this`nestedSlots,
               this`sigToSlot, this`collisionSlots
      ensures Valid() && fields == old(fields) + [path]
    {
      var r := Registry(isNested, topLevelSlots, nestedSlots, nestedPrefixes, sigToSlot, collisionSlots);
      var r' := AppendRegistry(fields, r, path, sig);
      fields, isNested, topLevelSlots, nestedSlots, nestedPrefixes, sigToSlot, collisionSlots :=
        fields + [path], r'.isNested, r'.topLevelSlots, r'.nestedSlots, r'.nestedPrefixes, r'.sigToSlot,
        r'.collisionSlots;
      assert Registry(isNested, topLevelSlots, nestedSlots, nestedPrefixes, sigToSlot, collisionSlots) == r';
    }

    /**
     * The loop `registerIndex` and `registerDigest` share: each path
     * registered in turn, the refused ones dropped from the answer.
     */
    method RegisterAll(paths: seq<string>) returns (result: seq<nat>)
      requires Valid()
      modifies this`fields, this`isNested, this`nestedPrefixes, this`topLevelSlots, this`nestedSlots,
               this`sigToSlot, this`collisionSlots
      ensures Valid()
      ensures finalized ==> result == [] && fields == old(fields)
      ensures !finalized ==> old(fields) <= fields && result == SlotsOf(fields, paths)
      ensures !finalized ==> forall q :: q in paths && q !in fields ==> |fields| >= MAX_FIELDS - 1
      ensures forall q :: q in fields ==> q in old(fields) || q in paths
    {
      if finalized {
        return [];
      }
      result := [];
      var k := 0;
      while k < |paths|
        invariant 0 <= k <= |paths|
        invariant Valid()
        invariant old(fields) <= fields && result == SlotsOf(fields, paths[..k])
        invariant forall q :: q in paths[..k] && q !in fields ==> |fields| >= MAX_FIELDS - 1
        invariant forall q :: q in fields ==> q in old(fields) || q in paths[..k]
      {
        var p := paths[k];
        assert paths[..k + 1] == paths[..k] + [p];
        ghost var before := fields;
        var slot := RegisterField(p);
        RegisterStep(before, fields, paths[..k], p, slot);
        if slot != INVALID_SLOT {
          result := result + [slot];
        }
        k := k + 1;
      }
      assert paths[..k] == paths;
    }

    /** `registerIndex`: registers the paths and keeps their slots under the index's name. */
    method RegisterIndex(name: string, paths: seq<string>) returns (result: seq<nat>)
      requires Valid()
      modifies this`fields, this`isNested, this`nestedPrefixes, this`topLevelSlots, this`nestedSlots,
               this`sigToSlot, this`collisionSlots, this`indexSlots
      ensures Valid()
      ensures finalized ==> result == [] && fields == old(fields)
      ensures !finalized ==> old(fields) <= fields && result == SlotsOf(fields, paths)
      ensures indexSlots == old(indexSlots)[name := result]
    {
      result := RegisterAll(paths);
      indexSlots := indexSlots[name := result];
    }

    /** `registerDigest`: the same, kept under the digest's name. */
    method RegisterDigest(name: string, paths: seq<string>) returns (result: seq<nat>)
      requires Valid()
      modifies this`fields, this`isNested, this`nestedPrefixes, this`topLevelSlots, this`nestedSlots,
               this`sigToSlot, this`collisionSlots, this`digestSlots
      ensures Valid()
      ensures finalized ==> result == [] && fields == old(fields)
      ensures !finalized ==> old(fields) <= fields && result == SlotsOf(fields, paths)
      ensures digestSlots == old(digestSlots)[name := result]
    {
      result := RegisterAll(paths);
      digestSlots := digestSlots[name := result];
    }

    /** `finalize`'s resizing: empty slots and flags, one per field; sized ones stay as they are. */
    method SizeSlots()
      requires Sized()
      modifies this`slots, this`hasArrayAlongPath
      ensures |slots| == |fields| && |hasArrayAlongPath| == |fields|
      ensures finalized ==> slots == old(slots) && hasArrayAlongPath == old(hasArrayAlongPath)
      ensures !finalized ==> slots == seq(|fields|, _ => None) && hasArrayAlongPath == seq(|fields|, _ => false)
    {
      if !finalized {
        slots := seq(|fields|, _ => None);
        hasArrayAlongPath := seq(|fields|, _ => false);
      }
    }

    /** `finalize`'s signature tables, built from the registry. */
    method IndexSignatures()
      requires Valid()
      modifies this`finalized, this`topLevelSigs, this`nestedPrefixSigs
      ensures Valid() && finalized
      ensures topLevelSigs == old(topLevelSigs) + TopSigs(fields)
      ensures nestedPrefixSigs == AddPrefixes(Signature, old(nestedPrefixSigs), nestedSlots, nestedPrefixes)
    {
      var r := Registry(isNested, topLevelSlots, nestedSlots, nestedPrefixes, sigToSlot, collisionSlots);
      var sigs, index := FinalizeValues(fields, r, topLevelSigs, nestedPrefixSigs);
      finalized, topLevelSigs, nestedPrefixSigs := true, sigs, index;
    }

    /**
     * `finalize`: sizes the slots, collects the top-level signatures and
     * indexes every nested slot under its prefix's signature.  A second
     * call keeps the slots and appends every nested slot once more.
     */
    method Finalize()
      requires Valid() && Sized()
      modifies this`slots, this`hasArrayAlongPath, this`finalized, this`topLevelSigs, this`nestedPrefixSigs
      ensures Valid() && Sized() && finalized
      ensures old(finalized) ==> slots == old(slots) && hasArrayAlongPath == old(hasArrayAlongPath)
      ensures !old(finalized) ==> slots == seq(|fields|, _ => None) && hasArrayAlongPath == seq(|fields|, _ => false)
      ensures topLevelSigs == old(topLevelSigs) + TopSigs(fields)
      ensures nestedPrefixSigs == AddPrefixes(Signature, old(nestedPrefixSigs), nestedSlots, nestedPrefixes)
    {
      SizeSlots();
      IndexSignatures();
    }

    /**
     * `extract`: clears every slot and flag, then scans the document once;
     * afterwards the slots, flags and count are as `Scanned` says.
     */
    method Extract(doc: Doc)
      requires Valid() && Sized() && finalized
      modifies this`slots, this`hasArrayAlongPath, this`extractedCount
      ensures Valid() && Sized()
      ensures Scanned(fields, isNested, slots, hasArrayAlongPath, extractedCount, doc)
    {
      NestedFlagsClassified(fields);
      var s, f, c := Scan(fields, isNested, sigToSlot, collisionSlots, nestedPrefixSigs, doc);
      slots, hasArrayAlongPath, extractedCount := s, f, c;
    }

    /** `get`: the element in a slot, EOO for a slot out of range. */
    function Get(slot: nat): (e: Option<Elem>)
      reads this`slots
      ensures slot < |slots| ==> e == slots[slot]
      ensures slot >= |slots| ==> e.None?
    {
      if slot < |slots| then slots[slot] else None
    }

    /** `hasArrayAlongPath`: the slot's flag, false out of range. */
    function HasArrayAlongPath(slot: nat): (b: bool)
      reads this`hasArrayAlongPath
      ensures b <==> slot < |hasArrayAlongPath| && hasArrayAlongPath[slot]
    {
      slot < |hasArrayAlongPath| && hasArrayAlongPath[slot]
    }

    /** `collisionCount`: the paths that share their signature with an earlier one. */
    method CollisionCount() returns (count: nat)
      requires Valid()
      ensures count == |fields| - |sigToSlot.Keys|
    {
      CollisionTotal(Signature, fields);
      count := 0;
      var keys := collisionSlots.Keys;
      while keys != {}
        invariant keys <= collisionSlots.Keys
        invariant count + SumOver(collisionSlots, keys) == SumLens(collisionSlots)
        decreases keys
      {
        var k :| k in keys;
        SumOverRemove(collisionSlots, keys, k);
        count := count + |collisionSlots[k]|;
        keys := keys - {k};
      }
    }

    /** The loop `getIndexFields` and `getDigestFields` share: the element in each listed slot, in order. */
    method SlotValues(list: seq<nat>) returns (out: seq<Option<Elem>>)
      ensures |out| == |list|
      ensures forall i :: 0 <= i < |list| ==> out[i] == Get(list[i])
    {
      out := [];
      var k := 0;
      while k < |list|
        invariant 0 <= k <= |list|
        invariant |out| == k
        invariant forall i :: 0 <= i < k ==> out[i] == Get(list[i])
      {
        out := out + [Get(list[k])];
        k := k + 1;
      }
    }

    /** `getIndexFields`: the elements in the index's slots, in order; nothing for an unknown index. */
    method GetIndexFields(name: string) returns (out: seq<Option<Elem>>)
      ensures name !in indexSlots ==> out == []
      ensures name in indexSlots ==>
        |out| == |indexSlots[name]| && forall i :: 0 <= i < |out| ==> out[i] == Get(indexSlots[name][i])
    {
      if name !in indexSlots {
        return [];
      }
      out := SlotValues(indexSlots[name]);
    }

    /** `getDigestFields`: the elements in the digest's slots, in order; nothing for an unknown digest. */
    method GetDigestFields(name: string) returns (out: seq<Option<Elem>>)
      ensures name !in digestSlots ==> out == []
      ensures name in digestSlots ==>
        |out| == |digestSlots[name]| && forall i :: 0 <= i < |out| ==> out[i] == Get(digestSlots[name][i])
    {
      if name !in digestSlots {
        return [];
      }
      out := SlotValues(digestSlots[name]);
    }
  }
}
