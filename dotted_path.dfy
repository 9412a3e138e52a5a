/**
 * Dotted-path resolution over BSON documents (`dotted_path_support.cpp`):
 * "a.b.c" names the field c of the object in field b of the object in
 * field a.  Four readers with different rules about literal dotted names and
 * arrays, a per-thread cache in front of one of them, template projection,
 * and a comparator for sort keys.
 */
module DottedPath {
  import opened Wrappers
  import opened BsonTree
  import DecimalText

  // ---------------------------------------------------------------------
  // Paths
  // ---------------------------------------------------------------------

  /** `path.find('.')` / `strchr(path, '.')`: the index of the first dot. */
  function FirstDot(s: string): (r: Option<nat>)
    ensures r.Some? ==> r.value < |s| && s[r.value] == '.' && '.' !in s[..r.value]
    ensures r.None? ==> '.' !in s
  {
    if |s| == 0 then None
    else if s[0] == '.' then Some(0)
    else
      match FirstDot(s[1..])
      case None => None
      case Some(k) =>
        assert s[..k + 1] == [s[0]] + s[1..][..k];
        Some(k + 1)
  }

  /** The number of components a path has beyond its first. */
  function DotCount(s: string): nat
  {
    multiset(s)['.']
  }

  /** A path cut at its first dot: the remainder has one dot fewer. */
  lemma SplitAtFirstDot(s: string, k: nat)
    requires FirstDot(s) == Some(k)
    ensures DotCount(s) == DotCount(s[k + 1..]) + 1
    ensures |s[k + 1..]| < |s|
  {
    assert s == s[..k] + [s[k]] + s[k + 1..];
    assert multiset(s[..k])['.'] == 0;
  }

  /** Components joined with dots. */
  function Join(comps: seq<string>): (p: string)
    requires |comps| >= 1
  {
    if |comps| == 1 then comps[0] else comps[0] + "." + Join(comps[1..])
  }

  predicate DotFreeComponents(comps: seq<string>)
  {
    forall i :: 0 <= i < |comps| ==> '.' !in comps[i]
  }

  /** In `a + "." + b` with a dot-free `a`, the first dot is the one after `a`. */
  lemma {:induction false} FirstDotAfter(a: string, b: string)
    requires '.' !in a
    ensures FirstDot(a + "." + b) == Some(|a|)
    ensures (a + "." + b)[..|a|] == a && (a + "." + b)[|a| + 1..] == b
  {
    var p := a + "." + b;
    if |a| > 0 {
      assert p[1..] == a[1..] + "." + b;
      assert '.' !in a[1..] by {
        forall j | 0 <= j < |a[1..]| ensures a[1..][j] != '.' { assert a[1..][j] == a[j + 1]; }
      }
      FirstDotAfter(a[1..], b);
    }
  }

  /** Joining dot-free components: the first dot ends the first component. */
  lemma JoinSplit(comps: seq<string>)
    requires |comps| > 1 && DotFreeComponents(comps)
    ensures FirstDot(Join(comps)) == Some(|comps[0]|)
    ensures Join(comps)[..|comps[0]|] == comps[0]
    ensures Join(comps)[|comps[0]| + 1..] == Join(comps[1..])
  {
    assert '.' !in comps[0];
    FirstDotAfter(comps[0], Join(comps[1..]));
  }

  /** A name that heads a deeper path never equals that whole path. */
  lemma JoinHasDot(comps: seq<string>)
    requires |comps| > 1 && DotFreeComponents(comps)
    ensures '.' in Join(comps)
  {
    JoinSplit(comps);
  }

  /** No field name, at any depth, contains a dot. */
  predicate DotFreeNames(d: Doc)
    decreases d
  {
    forall i :: 0 <= i < |d| ==>
      '.' !in d[i].name &&
      (d[i].val.Obj? ==> DotFreeNames(d[i].val.fields)) &&
      (d[i].val.Arr? ==> DotFreeNames(d[i].val.items))
  }

  /** No array at any depth. */
  predicate ArrayFree(d: Doc)
    decreases d
  {
    forall i :: 0 <= i < |d| ==>
      !d[i].val.Arr? && (d[i].val.Obj? ==> ArrayFree(d[i].val.fields))
  }

  /**
   * The reference reading of a component list: look up each component in
   * the object (or array) the previous one named.
   */
  function Resolve(d: Doc, comps: seq<string>): Option<Elem>
    requires |comps| >= 1
    decreases |comps|
  {
    if |comps| == 1 then GetField(d, comps[0])
    else
      var sub := GetObjectField(d, comps[0]);
      if sub == [] then None else Resolve(sub, comps[1..])
  }

  // ---------------------------------------------------------------------
  // extractElementAtPath
  // ---------------------------------------------------------------------

  /**
   * `extractElementAtPath`: the whole path as a literal field name first;
   * otherwise the part before the first dot must name a non-empty object or
   * array, and the rest is resolved inside it.  The element found is named
   * by a suffix of the path.
   */
  function ExtractElementAtPath(d: Doc, path: string): (r: Option<Elem>)
    ensures r.Some? ==> |r.value.name| <= |path| && path[|path| - |r.value.name|..] == r.value.name
    decreases |path|
  {
    var e := GetField(d, path);
    if e.Some? then e
    else
      match FirstDot(path)
      case None => None
      case Some(k) =>
        var sub := GetObjectField(d, path[..k]);
        if sub == [] then None
        else
          var r := ExtractElementAtPath(sub, path[k + 1..]);
          assert r.Some? ==> path[|path| - |r.value.name|..] == path[k + 1..][|path[k + 1..]| - |r.value.name|..];
          r
  }

  /** A literal field named by the whole path wins over descent. */
  lemma LiteralNameWins(d: Doc, path: string)
    requires HasField(d, path)
    ensures ExtractElementAtPath(d, path) == GetField(d, path)
  {
  }

  /** Missing prefix, or a prefix that is not a non-empty object or array: EOO. */
  lemma MissingPrefixIsEoo(d: Doc, a: string, rest: string)
    requires '.' !in a && !HasField(d, a + "." + rest)
    requires GetObjectField(d, a) == []
    ensures ExtractElementAtPath(d, a + "." + rest) == None
  {
    FirstDotAfter(a, rest);
  }

  /**
   * With no dotted field names anywhere, extracting at a joined path is
   * component-by-component lookup.
   */
  lemma {:induction false} ExtractFollowsComponents(d: Doc, comps: seq<string>)
    requires |comps| >= 1 && DotFreeComponents(comps) && DotFreeNames(d)
    ensures ExtractElementAtPath(d, Join(comps)) == Resolve(d, comps)
    decreases |comps|
  {
    if |comps| > 1 {
      var p := Join(comps);
      var k := |comps[0]|;
      JoinSplit(comps);
      JoinHasDot(comps);
      assert !HasField(d, p) by {
        forall i | 0 <= i < |d| ensures d[i].name != p {
          assert '.' !in d[i].name;
        }
      }
      var sub := GetObjectField(d, comps[0]);
      if sub != [] {
        var i :| 0 <= i < |d| && d[i] == GetField(d, comps[0]).value;
        assert DotFreeNames(sub);
        assert DotFreeComponents(comps[1..]) by {
          forall j | 0 <= j < |comps[1..]| ensures '.' !in comps[1..][j] {
            assert comps[1..][j] == comps[j + 1];
          }
        }
        ExtractFollowsComponents(sub, comps[1..]);
      }
    }
  }

  // ---------------------------------------------------------------------
  // extractElementAtPathOrArrayAlongPath
  // ---------------------------------------------------------------------

  /**
   * `_extractElementAtPathOrArrayAlongPathImpl`: walks the path component by
   * component (no literal dotted names) and stops at the first array, or
   * when the path is used up.  Returns the element and how many characters
   * of the path were consumed.
   */
  function AlongPath(d: Doc, path: string): (r: (Option<Elem>, nat))
    ensures r.1 <= |path|
    ensures r.0.Some? ==> r.0.value.val.Arr? || r.1 == |path|
    decreases |path|
  {
    match FirstDot(path)
    case None => (GetField(d, path), |path|)
    case Some(k) =>
      var sub := GetField(d, path[..k]);
      var rest := path[k + 1..];
      if sub.None? then (None, k + 1)
      else if sub.value.val.Arr? || rest == [] then (sub, k + 1)
      else if sub.value.val.Obj? then
        var (e, c) := AlongPath(sub.value.val.fields, rest);
        (e, k + 1 + c)
      else (None, k + 1)
  }

  /** A dot-free path is a plain `getField`, with the path used up. */
  lemma AlongPathDotFree(d: Doc, path: string)
    requires '.' !in path
    ensures AlongPath(d, path) == (GetField(d, path), |path|)
  {
  }

  /** A scalar in the middle of the path ends the walk with EOO. */
  lemma ScalarIntermediateIsEoo(d: Doc, a: string, rest: string)
    requires '.' !in a && rest != []
    requires GetField(d, a).Some? && !IsContainer(GetField(d, a).value.val)
    ensures AlongPath(d, a + "." + rest).0 == None
  {
    FirstDotAfter(a, rest);
  }

  /** In an array-free document the walk is component-by-component lookup. */
  lemma {:induction false} AlongPathFollowsComponents(d: Doc, comps: seq<string>)
    requires |comps| >= 1 && DotFreeComponents(comps) && ArrayFree(d)
    requires forall i :: 0 <= i < |comps| ==> comps[i] != []
    ensures AlongPath(d, Join(comps)).0 == Resolve(d, comps)
    decreases |comps|
  {
    if |comps| > 1 {
      var p := Join(comps);
      JoinSplit(comps);
      var tail := comps[1..];
      assert DotFreeComponents(tail) by {
        forall j | 0 <= j < |tail| ensures '.' !in tail[j] {
          assert tail[j] == comps[j + 1];
        }
      }
      assert Join(tail) != [] by {
        if |tail| == 1 { assert tail[0] == comps[1]; } else { assert Join(tail) == tail[0] + "." + Join(tail[1..]); }
      }
      var sub := GetField(d, comps[0]);
      if sub.Some? {
        var i :| 0 <= i < |d| && d[i] == sub.value;
        assert !sub.value.val.Arr?;
        if sub.value.val.Obj? {
          var fields := sub.value.val.fields;
          assert ArrayFree(fields);
          if fields != [] {
            assert forall j :: 0 <= j < |tail| ==> tail[j] != [] by {
              forall j | 0 <= j < |tail| ensures tail[j] != [] { assert tail[j] == comps[j + 1]; }
            }
            AlongPathFollowsComponents(fields, tail);
          } else {
            var q := Join(tail);
            match FirstDot(q)
            case None =>
            case Some(k) =>
          }
        }
      }
    }
  }

  /**
   * What `extractElementAtPathOrArrayAlongPath` hands back for `path` in the
   * document `d` at address `addr`, given the cache's address `docData` and
   * entries: a dotted path already cached under the same address is answered
   * from the cache, whatever document now lives there; anything else is
   * looked up.
   */
  function Served(docData: int, cached: map<string, (Option<Elem>, nat)>, addr: nat, d: Doc, path: string)
    : (r: (Option<Elem>, nat))
    ensures FirstDot(path).None? || docData != addr || path !in cached ==> r == AlongPath(d, path)
    ensures FirstDot(path).Some? && docData == addr && path in cached ==> r == cached[path]
  {
    if FirstDot(path).Some? && docData == addr && path in cached then cached[path] else AlongPath(d, path)
  }

  /**
   * The cache is transparent as long as an address that still has entries
   * holds the document they were computed from.
   */
  lemma ServedFresh(docData: int, doc: Doc, cached: map<string, (Option<Elem>, nat)>, addr: nat, d: Doc, path: string)
    requires forall p :: p in cached ==> cached[p] == AlongPath(doc, p)
    requires docData == addr ==> d == doc
    ensures Served(docData, cached, addr, d, path) == AlongPath(d, path)
  {
  }

  /**
   * The cache is keyed by address alone: once `a.b` of `{a: {b: 1}}` is
   * cached, a different document `{a: {b: 2}}` placed at the same address is
   * answered with the first document's element.
   */
  lemma StaleCacheAnswer()
    ensures var first := [Elem("a", Obj([Elem("b", Int32(1))]))];
            var second := [Elem("a", Obj([Elem("b", Int32(2))]))];
            var cached := map["a.b" := AlongPath(first, "a.b")];
            Served(7, cached, 7, second, "a.b") == (Some(Elem("b", Int32(1))), 3) &&
            AlongPath(second, "a.b") == (Some(Elem("b", Int32(2))), 3)
  {
    var first := [Elem("a", Obj([Elem("b", Int32(1))]))];
    var second := [Elem("a", Obj([Elem("b", Int32(2))]))];
    assert FirstDot("a.b") == Some(1);
    assert FirstDot("b") == None;
    assert "a.b"[..1] == "a" && "a.b"[2..] == "b";
    assert GetField(first, "a") == Some(first[0]);
    assert GetField(second, "a") == Some(second[0]);
    assert GetField([Elem("b", Int32(1))], "b") == Some(Elem("b", Int32(1)));
    assert GetField([Elem("b", Int32(2))], "b") == Some(Elem("b", Int32(2)));
  }

  /** `cache[pathKey] = {result, consumed}`. */
  function Remember(cached: map<string, (Option<Elem>, nat)>, path: string, r: (Option<Elem>, nat))
    : (m: map<string, (Option<Elem>, nat)>)
    ensures path in m && m[path] == r
    ensures forall p :: p in m && p != path ==> p in cached && m[p] == cached[p]
  {
    cached[path := r]
  }

  /**
   * The per-thread cache in front of `AlongPath` for dotted paths.  It
   * remembers the address of the last document it served (`docData`) and
   * forgets everything when a different address arrives.
   */
  class FieldExtractionCache {
    var docData: int
    var cache: map<string, (Option<Elem>, nat)>
    /** For every remembered path, the document its answer was computed from. */
    ghost var origin: map<string, Doc>

    /** Every remembered answer is the uncached answer for its own document. */
    ghost predicate Valid()
      reads this
    {
      origin.Keys == cache.Keys &&
      forall p :: p in cache ==> cache[p] == AlongPath(origin[p], p)
    }

    constructor()
      ensures Valid() && docData == -1 && cache == map[]
    {
      docData := -1;
      cache := map[];
      origin := map[];
    }

    /** `checkDocument`: a new address drops every entry; the same address keeps them. */
    method CheckDocument(addr: nat)
      requires Valid()
      modifies this
      ensures Valid() && docData == addr
      ensures old(docData) == addr ==> cache == old(cache) && origin == old(origin)
      ensures old(docData) != addr ==> cache == map[] && origin == map[]
    {
      if docData != addr {
        docData := addr;
        cache := map[];
        origin := map[];
      }
    }

    /**
     * `extractElementAtPathOrArrayAlongPath`: dot-free paths bypass the
     * cache; dotted ones are answered from it when the address matches and
     * the path is there (the answer for the document it was computed from),
     * and otherwise looked up in `d` and remembered.  So the answer is the
     * uncached one whenever every entry under the address came from `d`.
     */
    method ExtractElementAtPathOrArrayAlongPath(d: Doc, addr: nat, path: string)
        returns (e: Option<Elem>, consumed: nat)
      requires Valid()
      modifies this
      ensures (e, consumed) == Served(old(docData), old(cache), addr, d, path)
      ensures var hit := FirstDot(path).Some? && old(docData) == addr && path in old(cache);
              (e, consumed) == AlongPath(if hit then old(origin)[path] else d, path)
      ensures old(docData) == addr && (forall p :: p in old(origin) ==> old(origin)[p] == d) ==>
                (e, consumed) == AlongPath(d, path)
      ensures Valid()
      ensures FirstDot(path).None? ==> unchanged(this)
      ensures FirstDot(path).Some? ==> docData == addr && path in cache
    {
      if FirstDot(path).None? {
        AlongPathDotFree(d, path);
        e, consumed := GetField(d, path), |path|;
        return;
      }
      CheckDocument(addr);
      if path in cache {
        e, consumed := cache[path].0, cache[path].1;
        return;
      }
      var r := AlongPath(d, path);
      e, consumed := r.0, r.1;
      cache := Remember(cache, path, r);
      origin := origin[path := d];
    }
  }

  // ---------------------------------------------------------------------
  // _extractAllElementsAlongPath
  // ---------------------------------------------------------------------

  /** The index of the first non-digit at or after `from`. */
  function DigitRun(s: string, from: nat): (t: nat)
    requires from <= |s|
    ensures from <= t <= |s|
    ensures t < |s| ==> !DecimalText.IsDigit(s[t])
    decreases |s| - from
  {
    if from < |s| && DecimalText.IsDigit(s[from]) then DigitRun(s, from + 1) else from
  }

  /** The rest of the path starts with a whole numeric component. */
  predicate LeadingIndex(s: string)
  {
    |s| > 0 && DecimalText.IsDigit(s[0]) &&
      (DigitRun(s, 1) == |s| || s[DigitRun(s, 1)] == '.')
  }

  /**
   * What `_extractAllElementsAlongPath` adds: the elements found (in
   * insertion order) and the depths of the arrays with more than one element
   * it fanned out over or expanded.
   */
  function AllAlongPath(d: Doc, path: string, expand: bool, depth: nat): (seq<Elem>, set<nat>)
    decreases |path|, 0
  {
    match GetField(d, path)
    case Some(e) =>
      if e.val.Arr? && expand then
        (e.val.items, if |e.val.items| > 1 then {depth} else {})
      else ([e], {})
    case None =>
      match FirstDot(path)
      case None => ([], {})
      case Some(k) =>
        var next := path[k + 1..];
        match GetField(d, path[..k])
        case None => ([], {})
        case Some(f) =>
          if f.val.Obj? then AllAlongPath(f.val.fields, next, expand, depth + 1)
          else if f.val.Arr? then ThroughArray(f.val.items, next, expand, depth)
          else ([], {})
  }

  /**
   * The rest of the path after an array met at `depth`: a numeric component
   * addresses one position, anything else fans out over the array.
   */
  function ThroughArray(items: seq<Elem>, next: string, expand: bool, depth: nat): (seq<Elem>, set<nat>)
    decreases |next|, 3
  {
    if LeadingIndex(next) then AllAlongPath(items, next, expand, depth + 1)
    else
      var (es, ds) := FanOut(items, next, expand, depth + 1);
      (es, if |items| > 1 then ds + {depth} else ds)
  }

  /** The non-numeric component applied to every object or array in an array, in order. */
  function FanOut(items: seq<Elem>, next: string, expand: bool, depth: nat): (seq<Elem>, set<nat>)
    decreases |next|, 2, |items|
  {
    if |items| == 0 then ([], {})
    else
      var (es, ds) := FanOut(items[..|items| - 1], next, expand, depth);
      var (es', ds') := FromElement(items[|items| - 1].val, next, expand, depth);
      (es + es', ds + ds')
  }

  /** One array element's share of a fan-out: only objects and arrays are searched. */
  function FromElement(v: Val, next: string, expand: bool, depth: nat): (seq<Elem>, set<nat>)
    decreases |next|, 1
  {
    if v.Obj? then AllAlongPath(v.fields, next, expand, depth)
    else if v.Arr? then AllAlongPath(v.items, next, expand, depth)
    else ([], {})
  }

  lemma FanOutStep(items: seq<Elem>, n: nat, next: string, expand: bool, depth: nat)
    requires n < |items|
    ensures FanOut(items[..n + 1], next, expand, depth) ==
      (FanOut(items[..n], next, expand, depth).0 + FromElement(items[n].val, next, expand, depth).0,
       FanOut(items[..n], next, expand, depth).1 + FromElement(items[n].val, next, expand, depth).1)
  {
    assert items[..n + 1][..n] == items[..n];
  }

  /**
   * `_extractAllElementsAlongPath`: appends to `elems` and `comps` what
   * `AllAlongPath` describes.
   */
  method ExtractAllElementsAlongPath(d: Doc, path: string, expand: bool, depth: nat,
                                     elems: seq<Elem>, comps: set<nat>)
      returns (elems': seq<Elem>, comps': set<nat>)
    ensures elems' == elems + AllAlongPath(d, path, expand, depth).0
    ensures comps' == comps + AllAlongPath(d, path, expand, depth).1
    decreases |path|, 0
  {
    var e := GetField(d, path);
    elems', comps' := elems, comps;
    if e.None? {
      var dot := FirstDot(path);
      if dot.Some? {
        var k := dot.value;
        var left, next := path[..k], path[k + 1..];
        var f := GetField(d, left);
        if f.Some? && f.value.val.Obj? {
          elems', comps' := ExtractAllElementsAlongPath(f.value.val.fields, next, expand, depth + 1, elems, comps);
        } else if f.Some? && f.value.val.Arr? {
          elems', comps' := ExtractThroughArray(f.value.val.items, next, expand, depth, elems, comps);
        }
      }
    } else if e.value.val.Arr? && expand {
      var items := e.value.val.items;
      elems' := InsertAll(items, elems);
      if |items| > 1 {
        comps' := comps' + {depth};
      }
    } else {
      elems' := elems' + [e.value];
    }
  }

  /** The loop inserting every element of a trailing array. */
  method InsertAll(items: seq<Elem>, elems: seq<Elem>) returns (elems': seq<Elem>)
    ensures elems' == elems + items
  {
    elems' := elems;
    var n := 0;
    while n < |items|
      invariant 0 <= n <= |items|
      invariant elems' == elems + items[..n]
    {
      assert items[..n + 1] == items[..n] + [items[n]];
      elems' := elems' + [items[n]];
      n := n + 1;
    }
    assert items[..n] == items;
  }

  /** The digit scan: does the rest of the path start with a whole numeric component? */
  method ScanLeadingIndex(next: string) returns (allDigits: bool)
    ensures allDigits == LeadingIndex(next)
  {
    allDigits := false;
    if |next| > 0 && DecimalText.IsDigit(next[0]) {
      var temp := 1;
      while temp < |next| && DecimalText.IsDigit(next[temp])
        invariant 1 <= temp <= |next|
        invariant DigitRun(next, temp) == DigitRun(next, 1)
      {
        temp := temp + 1;
      }
      allDigits := temp == |next| || next[temp] == '.';
    }
  }

  /** The array branch: positional descent, or the fan-out loop followed by the depth. */
  method ExtractThroughArray(items: seq<Elem>, next: string, expand: bool, depth: nat,
                             elems: seq<Elem>, comps: set<nat>)
      returns (elems': seq<Elem>, comps': set<nat>)
    ensures elems' == elems + ThroughArray(items, next, expand, depth).0
    ensures comps' == comps + ThroughArray(items, next, expand, depth).1
    decreases |next|, 3
  {
    var allDigits := ScanLeadingIndex(next);
    if allDigits {
      elems', comps' := ExtractAllElementsAlongPath(items, next, expand, depth + 1, elems, comps);
    } else {
      elems', comps' := ExtractFanOut(items, next, expand, depth + 1, elems, comps);
      if |items| > 1 {
        comps' := comps' + {depth};
      }
    }
  }

  /** The loop over an array's elements, descending into each object or array. */
  method ExtractFanOut(items: seq<Elem>, next: string, expand: bool, depth: nat,
                       elems: seq<Elem>, comps: set<nat>)
      returns (elems': seq<Elem>, comps': set<nat>)
    ensures elems' == elems + FanOut(items, next, expand, depth).0
    ensures comps' == comps + FanOut(items, next, expand, depth).1
    decreases |next|, 2
  {
    elems', comps' := elems, comps;
    var n := 0;
    while n < |items|
      invariant 0 <= n <= |items|
      invariant elems' == elems + FanOut(items[..n], next, expand, depth).0
      invariant comps' == comps + FanOut(items[..n], next, expand, depth).1
    {
      FanOutStep(items, n, next, expand, depth);
      elems', comps' := ExtractFromElement(items[n].val, next, expand, depth, elems', comps');
      n := n + 1;
    }
    assert items[..n] == items;
  }

  /** The body of the fan-out loop: objects and arrays are searched, other values skipped. */
  method ExtractFromElement(v: Val, next: string, expand: bool, depth: nat,
                            elems: seq<Elem>, comps: set<nat>)
      returns (elems': seq<Elem>, comps': set<nat>)
    ensures elems' == elems + FromElement(v, next, expand, depth).0
    ensures comps' == comps + FromElement(v, next, expand, depth).1
    decreases |next|, 1
  {
    elems', comps' := elems, comps;
    if v.Obj? {
      elems', comps' := ExtractAllElementsAlongPath(v.fields, next, expand, depth, elems, comps);
    } else if v.Arr? {
      elems', comps' := ExtractAllElementsAlongPath(v.items, next, expand, depth, elems, comps);
    } else {
      assert elems + [] == elems;
    }
  }

  /** Every recorded array depth lies between the starting depth and the last component's. */
  lemma {:induction false} RecordedDepthsBounded(d: Doc, path: string, expand: bool, depth: nat)
    ensures forall x :: x in AllAlongPath(d, path, expand, depth).1 ==> depth <= x <= depth + DotCount(path)
    decreases |path|, 0
  {
    if GetField(d, path).None? {
      match FirstDot(path)
      case None =>
      case Some(k) =>
        var next := path[k + 1..];
        SplitAtFirstDot(path, k);
        match GetField(d, path[..k])
        case None =>
        case Some(f) =>
          if f.val.Obj? {
            RecordedDepthsBounded(f.val.fields, next, expand, depth + 1);
          } else if f.val.Arr? {
            ThroughArrayDepthsBounded(f.val.items, next, expand, depth);
          }
    }
  }

  lemma {:induction false} ThroughArrayDepthsBounded(items: seq<Elem>, next: string, expand: bool, depth: nat)
    ensures forall x :: x in ThroughArray(items, next, expand, depth).1 ==> depth <= x <= depth + 1 + DotCount(next)
    decreases |next|, 3
  {
    if LeadingIndex(next) {
      RecordedDepthsBounded(items, next, expand, depth + 1);
    } else {
      FanOutDepthsBounded(items, next, expand, depth + 1);
    }
  }

  lemma {:induction false} FanOutDepthsBounded(items: seq<Elem>, next: string, expand: bool, depth: nat)
    ensures forall x :: x in FanOut(items, next, expand, depth).1 ==> depth <= x <= depth + DotCount(next)
    decreases |next|, 2, |items|
  {
    if |items| > 0 {
      FanOutDepthsBounded(items[..|items| - 1], next, expand, depth);
      FromElementDepthsBounded(items[|items| - 1].val, next, expand, depth);
    }
  }

  lemma {:induction false} FromElementDepthsBounded(v: Val, next: string, expand: bool, depth: nat)
    ensures forall x :: x in FromElement(v, next, expand, depth).1 ==> depth <= x <= depth + DotCount(next)
    decreases |next|, 1
  {
    if v.Obj? {
      RecordedDepthsBounded(v.fields, next, expand, depth);
    } else if v.Arr? {
      RecordedDepthsBounded(v.items, next, expand, depth);
    }
  }

  /** A trailing array is expanded into its elements when asked, else kept whole. */
  lemma TrailingArray(d: Doc, path: string, expand: bool, depth: nat)
    requires GetField(d, path).Some? && GetField(d, path).value.val.Arr?
    ensures var items := GetField(d, path).value.val.items;
      AllAlongPath(d, path, expand, depth) ==
        if expand then (items, if |items| > 1 then {depth} else {})
        else ([GetField(d, path).value], {})
  {
  }

  /** A string of digits is a whole numeric component. */
  lemma {:induction false} DigitsAreIndex(s: string, from: nat)
    requires 1 <= from <= |s| && DecimalText.AllDigits(s)
    ensures DigitRun(s, from) == |s|
    decreases |s| - from
  {
    if from < |s| {
      DigitsAreIndex(s, from + 1);
    }
  }

  /**
   * A numeric component after an array addresses the array element of that
   * position (arrays name their elements "0", "1", ...).
   */
  lemma ArrayPositionAddressed(d: Doc, a: string, idx: string, items: seq<Elem>, x: Elem,
                               expand: bool, depth: nat)
    requires '.' !in a && |idx| > 0 && DecimalText.AllDigits(idx)
    requires !HasField(d, a + "." + idx)
    requires GetField(d, a).Some? && GetField(d, a).value.val == Arr(items)
    requires GetField(items, idx) == Some(x) && !(x.val.Arr? && expand)
    ensures AllAlongPath(d, a + "." + idx, expand, depth) == ([x], {})
  {
    FirstDotAfter(a, idx);
    DigitsAreIndex(idx, 1);
    assert LeadingIndex(idx);
    assert AllAlongPath(d, a + "." + idx, expand, depth) == ThroughArray(items, idx, expand, depth);
    assert ThroughArray(items, idx, expand, depth) == AllAlongPath(items, idx, expand, depth + 1);
  }

  /** An optional element as a list of zero or one elements. */
  function Found(x: Option<Elem>): seq<Elem>
  {
    if x.Some? then [x.value] else []
  }

  /** Without arrays, collecting along a path finds exactly what `extractElementAtPath` finds. */
  lemma {:induction false} AllAlongPathWithoutArrays(d: Doc, path: string, expand: bool, depth: nat)
    requires ArrayFree(d)
    ensures AllAlongPath(d, path, expand, depth) == (Found(ExtractElementAtPath(d, path)), {})
    decreases |path|
  {
    var e := GetField(d, path);
    if e.Some? {
      var i :| 0 <= i < |d| && d[i] == e.value;
      assert !d[i].val.Arr?;
    } else if FirstDot(path).Some? {
      var k := FirstDot(path).value;
      var next := path[k + 1..];
      var f := GetField(d, path[..k]);
      if f.Some? {
        var i :| 0 <= i < |d| && d[i] == f.value;
        assert !d[i].val.Arr?;
        if f.value.val.Obj? {
          DescendWithoutArrays(d, path, k, f.value.val.fields, expand, depth);
        }
      }
    }
  }

  lemma DescendWithoutArrays(d: Doc, path: string, k: nat, fields: Doc, expand: bool, depth: nat)
    requires ArrayFree(fields)
    requires GetField(d, path).None? && FirstDot(path) == Some(k)
    requires GetField(d, path[..k]).Some? && GetField(d, path[..k]).value.val == Obj(fields)
    ensures AllAlongPath(d, path, expand, depth) == (Found(ExtractElementAtPath(d, path)), {})
    decreases |path|, 0
  {
    var next := path[k + 1..];
    AllAlongIntoObject(d, path, k, fields, expand, depth);
    ExtractIntoObject(d, path, k, fields);
    AllAlongPathWithoutArrays(fields, next, expand, depth + 1);
  }

  /** Collecting along a path continues inside the object its first component names. */
  lemma AllAlongIntoObject(d: Doc, path: string, k: nat, fields: Doc, expand: bool, depth: nat)
    requires GetField(d, path).None? && FirstDot(path) == Some(k)
    requires GetField(d, path[..k]).Some? && GetField(d, path[..k]).value.val == Obj(fields)
    ensures AllAlongPath(d, path, expand, depth) == AllAlongPath(fields, path[k + 1..], expand, depth + 1)
  {
  }

  /** `extractElementAtPath` continues inside that object too, unless it is empty. */
  lemma ExtractIntoObject(d: Doc, path: string, k: nat, fields: Doc)
    requires GetField(d, path).None? && FirstDot(path) == Some(k)
    requires GetField(d, path[..k]).Some? && GetField(d, path[..k]).value.val == Obj(fields)
    ensures ExtractElementAtPath(d, path) == if fields == [] then None else ExtractElementAtPath(fields, path[k + 1..])
  {
  }

  // ---------------------------------------------------------------------
  // extractElementsBasedOnTemplate
  // ---------------------------------------------------------------------

  /**
   * `extractElementsBasedOnTemplate`: for each pattern field in order, the
   * value at that path under the pattern's name; a missing one becomes null
   * with `useNullIfMissing` and is skipped otherwise.
   */
  function ExtractElementsBasedOnTemplate(d: Doc, pattern: Doc, useNull: bool): (r: Doc)
    ensures useNull ==> Names(r) == Names(pattern)
    ensures |r| <= |pattern|
  {
    if |pattern| == 0 then []
    else
      var name := pattern[0].name;
      var x := ExtractElementAtPath(d, name);
      var head := if x.Some? then [Elem(name, x.value.val)]
                  else if useNull then [Elem(name, Null)] else [];
      var rest := ExtractElementsBasedOnTemplate(d, pattern[1..], useNull);
      assert Names(head + rest) == Names(head) + Names(rest);
      assert Names(pattern) == [name] + Names(pattern[1..]);
      head + rest
  }

  /** With nulls for missing values, the i-th output field answers the i-th pattern field. */
  lemma {:induction false} TemplateWithNulls(d: Doc, pattern: Doc, i: nat)
    requires i < |pattern|
    ensures var r := ExtractElementsBasedOnTemplate(d, pattern, true);
      |r| == |pattern| && r[i].name == pattern[i].name &&
      r[i].val == match ExtractElementAtPath(d, pattern[i].name) case Some(x) => x.val case None => Null
  {
    if i > 0 {
      TemplateWithNulls(d, pattern[1..], i - 1);
      var r := ExtractElementsBasedOnTemplate(d, pattern, true);
      assert r[1..] == ExtractElementsBasedOnTemplate(d, pattern[1..], true);
    }
  }

  /**
   * Without nulls, a name appears in the output iff a pattern field has it
   * and its path resolves; the value is the resolved one.
   */
  lemma {:induction false} TemplateWithoutNulls(d: Doc, pattern: Doc, name: string)
    ensures var r := ExtractElementsBasedOnTemplate(d, pattern, false);
      (HasField(r, name) <==> HasField(pattern, name) && ExtractElementAtPath(d, name).Some?) &&
      (GetField(r, name).Some? ==> GetField(r, name).value.val == ExtractElementAtPath(d, name).value.val)
  {
    if |pattern| > 0 {
      TemplateWithoutNulls(d, pattern[1..], name);
      var r := ExtractElementsBasedOnTemplate(d, pattern, false);
      var rest := ExtractElementsBasedOnTemplate(d, pattern[1..], false);
      HasFieldCons(pattern, name);
      var x := ExtractElementAtPath(d, pattern[0].name);
      if x.Some? {
        assert r == [Elem(pattern[0].name, x.value.val)] + rest;
        assert r[1..] == rest;
        HasFieldCons(r, name);
      } else {
        assert r == rest;
      }
    }
  }

  // ---------------------------------------------------------------------
  // compareObjectsAccordingToSort
  // ---------------------------------------------------------------------

  const NEEDS_NON_EMPTY_SORT_KEY: nat := 10060

  /** The element compared for one sort key: the path's value, or null when it is missing. */
  function SortValue(d: Doc, name: string, dotted: bool): Val
  {
    var e := if dotted then ExtractElementAtPath(d, name) else GetField(d, name);
    if e.Some? then e.value.val else Null
  }

  /** One sort key's comparison, reversed for a negative direction. */
  function KeyCompare(a: Doc, b: Doc, key: Elem, dotted: bool, cmp: (Val, Val) -> int): int
  {
    var x := cmp(SortValue(a, key.name, dotted), SortValue(b, key.name, dotted));
    if NegativeNumber(key.val) then -x else x
  }

  /** The first non-zero key comparison, or 0. */
  function SortKeyCompare(a: Doc, b: Doc, keys: Doc, dotted: bool, cmp: (Val, Val) -> int): int
  {
    if |keys| == 0 then 0
    else
      var x := KeyCompare(a, b, keys[0], dotted, cmp);
      if x != 0 then x else SortKeyCompare(a, b, keys[1..], dotted, cmp)
  }

  /** The answer of `compareObjectsAccordingToSort`, or the uassert code it raises. */
  function CompareAccordingToSort(a: Doc, b: Doc, sortKey: Doc, dotted: bool, cmp: (Val, Val) -> int)
    : Result<int, nat>
  {
    if a == [] then Ok(if b == [] then 0 else -1)
    else if b == [] then Ok(1)
    else if sortKey == [] then Err(NEEDS_NON_EMPTY_SORT_KEY)
    else Ok(SortKeyCompare(a, b, sortKey, dotted, cmp))
  }

  /** `compareObjectsAccordingToSort`, walking the sort key. */
  method CompareObjectsAccordingToSort(a: Doc, b: Doc, sortKey: Doc, dotted: bool, cmp: (Val, Val) -> int)
      returns (r: Result<int, nat>)
    ensures r == CompareAccordingToSort(a, b, sortKey, dotted, cmp)
  {
    if a == [] {
      return Ok(if b == [] then 0 else -1);
    }
    if b == [] {
      return Ok(1);
    }
    if sortKey == [] {
      return Err(NEEDS_NON_EMPTY_SORT_KEY);
    }
    var i := 0;
    while i < |sortKey|
      invariant 0 <= i <= |sortKey|
      invariant SortKeyCompare(a, b, sortKey, dotted, cmp) == SortKeyCompare(a, b, sortKey[i..], dotted, cmp)
    {
      var f := sortKey[i];
      var l := SortValue(a, f.name, dotted);
      var rv := SortValue(b, f.name, dotted);
      var x := cmp(l, rv);
      if NegativeNumber(f.val) {
        x := -x;
      }
      if x != 0 {
        return Ok(x);
      }
      assert sortKey[i..][1..] == sortKey[i + 1..];
      i := i + 1;
    }
    return Ok(0);
  }

  /** The result is the comparison at the first key that tells the objects apart. */
  lemma {:induction false} FirstDifferingKeyDecides(a: Doc, b: Doc, keys: Doc, dotted: bool,
                                                   cmp: (Val, Val) -> int, i: nat)
    requires i < |keys| && KeyCompare(a, b, keys[i], dotted, cmp) != 0
    requires forall j :: 0 <= j < i ==> KeyCompare(a, b, keys[j], dotted, cmp) == 0
    ensures SortKeyCompare(a, b, keys, dotted, cmp) == KeyCompare(a, b, keys[i], dotted, cmp)
  {
    if i > 0 {
      FirstDifferingKeyDecides(a, b, keys[1..], dotted, cmp, i - 1);
    }
  }

  /** No key telling the objects apart: they compare equal. */
  lemma {:induction false} NoDifferingKeyIsEqual(a: Doc, b: Doc, keys: Doc, dotted: bool, cmp: (Val, Val) -> int)
    requires forall j :: 0 <= j < |keys| ==> KeyCompare(a, b, keys[j], dotted, cmp) == 0
    ensures SortKeyCompare(a, b, keys, dotted, cmp) == 0
  {
    if |keys| > 0 {
      NoDifferingKeyIsEqual(a, b, keys[1..], dotted, cmp);
    }
  }

  /** An antisymmetric element comparison gives an antisymmetric object comparison. */
  lemma {:induction false} CompareAntisymmetric(a: Doc, b: Doc, keys: Doc, dotted: bool, cmp: (Val, Val) -> int)
    requires forall x, y :: cmp(x, y) == -cmp(y, x)
    ensures SortKeyCompare(a, b, keys, dotted, cmp) == -SortKeyCompare(b, a, keys, dotted, cmp)
  {
    if |keys| > 0 {
      CompareAntisymmetric(a, b, keys[1..], dotted, cmp);
    }
  }

  /** The full comparator is antisymmetric too, including its empty-object cases. */
  lemma SortOrderAntisymmetric(a: Doc, b: Doc, sortKey: Doc, dotted: bool, cmp: (Val, Val) -> int)
    requires forall x, y :: cmp(x, y) == -cmp(y, x)
    requires sortKey != []
    ensures CompareAccordingToSort(a, b, sortKey, dotted, cmp).Ok?
    ensures CompareAccordingToSort(a, b, sortKey, dotted, cmp).value ==
            -CompareAccordingToSort(b, a, sortKey, dotted, cmp).value
  {
    CompareAntisymmetric(a, b, sortKey, dotted, cmp);
  }

  /** Every object compares equal to itself when its values do. */
  lemma {:induction false} CompareReflexive(a: Doc, keys: Doc, dotted: bool, cmp: (Val, Val) -> int)
    requires forall x :: cmp(x, x) == 0
    ensures SortKeyCompare(a, a, keys, dotted, cmp) == 0
  {
    if |keys| > 0 {
      CompareReflexive(a, keys[1..], dotted, cmp);
    }
  }
}
