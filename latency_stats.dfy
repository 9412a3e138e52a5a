/**
 * `calc_stats` of the benchmark: sort the latencies, drop `int(n * 0.05)`
 * samples from each end, and report percentiles and extremes of what is
 * left together with the untrimmed count.  Latencies are compared only by
 * order, so they are integers here; the mean, median and standard
 * deviation are floating point and are not modelled.
 */
module LatencyStats {
  import opened Wrappers

  /** The integer part of the summary; `count` is the number of samples before trimming. */
  datatype Stats = Stats(p95: int, p99: int, min: int, max: int, count: nat)

  predicate Sorted(s: seq<int>)
  {
    forall i, j :: 0 <= i < j < |s| ==> s[i] <= s[j]
  }

  /** x placed before the first larger element of a sorted list. */
  function Insert(x: int, s: seq<int>): (r: seq<int>)
    ensures |r| == |s| + 1
  {
    if |s| == 0 then [x]
    else if x <= s[0] then [x] + s
    else [s[0]] + Insert(x, s[1..])
  }

  /** `sorted(times)`. */
  function Sort(s: seq<int>): (r: seq<int>)
    ensures |r| == |s|
  {
    if |s| == 0 then [] else Insert(s[0], Sort(s[1..]))
  }

  /** `min(xs)`: the builtin's left-to-right scan. */
  function SeqMin(xs: seq<int>): int
    requires |xs| > 0
  {
    if |xs| == 1 then xs[0]
    else
      var m := SeqMin(xs[1..]);
      if xs[0] <= m then xs[0] else m
  }

  /** `max(xs)`. */
  function SeqMax(xs: seq<int>): int
    requires |xs| > 0
  {
    if |xs| == 1 then xs[0]
    else
      var m := SeqMax(xs[1..]);
      if xs[0] >= m then xs[0] else m
  }

  /** `int(n * OUTLIER_TRIM)` with OUTLIER_TRIM = 0.05. */
  function TrimCount(n: nat): nat
  {
    n / 20
  }

  /** The trimmed list, with the source's fall-back to the whole list when trimming empties it. */
  function Trim(sorted: seq<int>): seq<int>
  {
    var k := TrimCount(|sorted|);
    var trimmed := if k > 0 then sorted[k..|sorted| - k] else sorted;
    if |trimmed| == 0 then sorted else trimmed
  }

  /** `int(len * p)` for p = num/den when there are several samples, else index 0. */
  function PercentileIndex(len: nat, num: nat, den: nat): nat
    requires den > 0
  {
    if len > 1 then len * num / den else 0
  }

  /** The body of `calc_stats` after the samples have been sorted. */
  function Summarize(sorted: seq<int>, count: nat): Stats
    requires |sorted| > 0
  {
    var trimmed := Trim(sorted);
    TrimNonEmpty(sorted);
    PercentileInRange(|trimmed|, 95, 100);
    PercentileInRange(|trimmed|, 99, 100);
    Stats(trimmed[PercentileIndex(|trimmed|, 95, 100)],
          trimmed[PercentileIndex(|trimmed|, 99, 100)],
          SeqMin(trimmed), SeqMax(trimmed), count)
  }

  /** `calc_stats(times)`: None for no samples. */
  function CalcStats(times: seq<int>): Option<Stats>
  {
    if |times| == 0 then None else Some(Summarize(Sort(times), |times|))
  }

  // ---------------------------------------------------------------------
  // Properties
  // ---------------------------------------------------------------------

  /** Inserting adds exactly x to the list's elements. */
  lemma {:induction false} InsertPermutes(x: int, s: seq<int>)
    ensures multiset(Insert(x, s)) == multiset(s) + multiset{x}
    decreases |s|
  {
    if |s| > 0 && x > s[0] {
      InsertPermutes(x, s[1..]);
      assert s == [s[0]] + s[1..];
    }
  }

  /** Inserting into a sorted list keeps it sorted. */
  lemma {:induction false} InsertSorted(x: int, s: seq<int>)
    requires Sorted(s)
    ensures Sorted(Insert(x, s))
    decreases |s|
  {
    if |s| > 0 && x > s[0] {
      InsertSorted(x, s[1..]);
      InsertPermutes(x, s[1..]);
      var r := Insert(x, s[1..]);
      forall k | 0 <= k < |r| ensures s[0] <= r[k] {
        assert r[k] in multiset(r);
        assert r[k] in multiset(s[1..]) + multiset{x};
        if r[k] != x {
          assert r[k] in multiset(s[1..]);
          var j :| 0 <= j < |s[1..]| && s[1..][j] == r[k];
          assert s[j + 1] == r[k];
        }
      }
    }
  }

  /** `sorted` returns an ordered permutation of its input. */
  lemma {:induction false} SortCorrect(s: seq<int>)
    ensures Sorted(Sort(s))
    ensures multiset(Sort(s)) == multiset(s)
    decreases |s|
  {
    if |s| > 0 {
      SortCorrect(s[1..]);
      InsertSorted(s[0], Sort(s[1..]));
      InsertPermutes(s[0], Sort(s[1..]));
      assert s == [s[0]] + s[1..];
    }
  }

  /** Trimming never empties a non-empty list, so the fall-back branch is never taken. */
  lemma TrimNonEmpty(sorted: seq<int>)
    requires |sorted| > 0
    ensures var k := TrimCount(|sorted|);
      2 * k < |sorted| && Trim(sorted) == sorted[k..|sorted| - k] && |Trim(sorted)| > 0
  {
  }

  /** `int(len * p)` is a valid index for p < 1. */
  lemma PercentileInRange(len: nat, num: nat, den: nat)
    requires len > 0 && den > 0 && num < den
    ensures PercentileIndex(len, num, den) < len
  {
    if len > 1 {
      assert len * num < len * den by {
        MulStrict(len, num, den);
      }
      DivBelow(len * num, den, len);
    }
  }

  lemma MulStrict(a: nat, b: nat, c: nat)
    requires a > 0 && b < c
    ensures a * b < a * c
  {
    assert a * c - a * b == a * (c - b);
  }

  lemma DivBelow(x: nat, d: nat, bound: nat)
    requires d > 0 && x < bound * d
    ensures x / d < bound
  {
  }

  /** The minimum of a sorted list is its head; `SeqMin` always returns a member no larger than any other. */
  lemma {:induction false} SeqMinIsLeast(xs: seq<int>)
    requires |xs| > 0
    ensures SeqMin(xs) in xs
    ensures forall i :: 0 <= i < |xs| ==> SeqMin(xs) <= xs[i]
    ensures Sorted(xs) ==> SeqMin(xs) == xs[0]
    decreases |xs|
  {
    if |xs| > 1 {
      SeqMinIsLeast(xs[1..]);
      forall i | 0 <= i < |xs| ensures SeqMin(xs) <= xs[i] {
        if i > 0 { assert xs[i] == xs[1..][i - 1]; }
      }
    }
  }

  /** The maximum of a sorted list is its last element. */
  lemma {:induction false} SeqMaxIsGreatest(xs: seq<int>)
    requires |xs| > 0
    ensures SeqMax(xs) in xs
    ensures forall i :: 0 <= i < |xs| ==> xs[i] <= SeqMax(xs)
    ensures Sorted(xs) ==> SeqMax(xs) == xs[|xs| - 1]
    decreases |xs|
  {
    if |xs| > 1 {
      SeqMaxIsGreatest(xs[1..]);
      forall i | 0 <= i < |xs| ensures xs[i] <= SeqMax(xs) {
        if i > 0 { assert xs[i] == xs[1..][i - 1]; }
      }
      if Sorted(xs) {
        assert xs[|xs| - 1] == xs[1..][|xs[1..]| - 1];
        assert xs[0] <= xs[|xs| - 1];
      }
    }
  }

  /** Empty input yields None. */
  lemma EmptyHasNoStats()
    ensures CalcStats([]) == None
  {
  }

  /**
   * For a non-empty sorted list: count is passed through; min and max are
   * the ends of the trimmed list; p95 and p99 are taken at `int(len * 0.95)`
   * and `int(len * 0.99)` of it.
   */
  lemma SummaryOfSorted(s: seq<int>, count: nat)
    requires |s| > 0 && Sorted(s)
    ensures 2 * (|s| / 20) < |s|
    ensures Summarize(s, count).count == count
    ensures Trim(s) == s[|s| / 20..|s| - |s| / 20]
    ensures ReadOff(Trim(s), Summarize(s, count))
  {
    TrimNonEmpty(s);
    var t := Trim(s);
    SortedSlice(s, |s| / 20, |s| - |s| / 20);
    SeqMinIsLeast(t);
    SeqMaxIsGreatest(t);
  }

  /** A non-empty sample list has statistics, taken from its sorted arrangement, counting every sample. */
  lemma StatsOfTrimmed(times: seq<int>)
    requires |times| > 0
    ensures CalcStats(times) == Some(Summarize(Sort(times), |times|))
    ensures Sorted(Sort(times)) && multiset(Sort(times)) == multiset(times)
    ensures CalcStats(times).value.count == |times|
  {
    SortCorrect(times);
  }

  /**
   * min and max are the ends of the trimmed list t; p95 and p99 are taken at
   * `int(len * 0.95)` and `int(len * 0.99)` of it.
   */
  predicate ReadOff(t: seq<int>, st: Stats)
  {
    |t| > 0
    && st.min == t[0] && st.max == t[|t| - 1]
    && st.p95 == t[if |t| > 1 then |t| * 95 / 100 else 0]
    && st.p99 == t[if |t| > 1 then |t| * 99 / 100 else 0]
  }

  /** A window of a sorted list is sorted. */
  lemma SortedSlice(s: seq<int>, lo: nat, hi: nat)
    requires Sorted(s) && lo <= hi <= |s|
    ensures Sorted(s[lo..hi])
  {
    forall i, j | 0 <= i < j < hi - lo ensures s[lo..hi][i] <= s[lo..hi][j] {
      assert s[lo..hi][i] == s[lo + i] && s[lo..hi][j] == s[lo + j];
    }
  }

  /**
   * Trimming drops exactly the k smallest and the k largest samples:
   * the three parts make up the input, and each dropped low sample is no
   * larger, each dropped high sample no smaller, than every kept one.
   */
  lemma TrimDropsExtremes(times: seq<int>, s: seq<int>, k: nat)
    requires |times| > 0 && Sorted(s) && multiset(s) == multiset(times) && k == TrimCount(|times|)
    ensures 2 * k < |s| == |times|
    ensures multiset(s[..k]) + multiset(s[k..|s| - k]) + multiset(s[|s| - k..]) == multiset(times)
    ensures forall i, j :: 0 <= i < k <= j < |s| - k ==> s[i] <= s[j]
    ensures forall i, j :: k <= i < |s| - k <= j < |s| ==> s[i] <= s[j]
  {
    assert |s| == |multiset(s)| == |times|;
    ThreeParts(s, k, |s| - k, multiset(times));
  }

  /** Cutting a sorted list in three: the parts make up the list and are ordered. */
  lemma ThreeParts(s: seq<int>, a: nat, b: nat, m: multiset<int>)
    requires Sorted(s) && a <= b <= |s| && multiset(s) == m
    ensures multiset(s[..a]) + multiset(s[a..b]) + multiset(s[b..]) == m
    ensures forall i, j :: 0 <= i < a <= j < b ==> s[i] <= s[j]
    ensures forall i, j :: a <= i < b <= j < |s| ==> s[i] <= s[j]
  {
    assert s == s[..a] + s[a..b] + s[b..];
  }

  /** Every reported value is one of the samples, between the reported min and max. */
  lemma ReportedValuesAreSamples(times: seq<int>)
    requires |times| > 0
    ensures var st := CalcStats(times).value;
      st.min in multiset(times) && st.max in multiset(times)
      && st.p95 in multiset(times) && st.p99 in multiset(times)
      && st.min <= st.p95 <= st.p99 <= st.max
  {
    StatsOfTrimmed(times);
    var s := Sort(times);
    SummaryOfSorted(s, |times|);
    TrimmedMembers(s, multiset(times));
    ReportedFromTrimmed(Trim(s), CalcStats(times).value, multiset(times));
  }

  /** The trimmed list of a sorted list is sorted and holds only samples. */
  lemma TrimmedMembers(s: seq<int>, m: multiset<int>)
    requires |s| > 0 && Sorted(s) && multiset(s) == m
    ensures Sorted(Trim(s))
    ensures forall i :: 0 <= i < |Trim(s)| ==> Trim(s)[i] in m
  {
    var k := |s| / 20;
    TrimNonEmpty(s);
    SortedSlice(s, k, |s| - k);
    forall i | 0 <= i < |Trim(s)| ensures Trim(s)[i] in m {
      assert Trim(s)[i] == s[k + i];
    }
  }

  /** Statistics read off a sorted list of samples are samples, in order. */
  lemma ReportedFromTrimmed(t: seq<int>, st: Stats, m: multiset<int>)
    requires Sorted(t) && ReadOff(t, st)
    requires forall i :: 0 <= i < |t| ==> t[i] in m
    ensures st.min in m && st.max in m && st.p95 in m && st.p99 in m
    ensures st.min <= st.p95 <= st.p99 <= st.max
  {
    var i95 := if |t| > 1 then |t| * 95 / 100 else 0;
    var i99 := if |t| > 1 then |t| * 99 / 100 else 0;
    PercentileInRange(|t|, 95, 100);
    PercentileInRange(|t|, 99, 100);
    assert i95 <= i99 by {
      if |t| > 1 {
        DivMonotone(|t| * 95, |t| * 99, 100);
      }
    }
    SortedAt(t, 0, i95);
    SortedAt(t, i95, i99);
    SortedAt(t, i99, |t| - 1);
  }

  lemma DivMonotone(x: nat, y: nat, d: nat)
    requires x <= y && d > 0
    ensures x / d <= y / d
  {
    var qx, qy := x / d, y / d;
    assert d * qx <= x;
    assert y < d * (qy + 1) by {
      assert d * (qy + 1) == d * qy + d;
    }
    MulLessCancel(d, qx, qy + 1);
  }

  lemma MulLessCancel(d: nat, a: int, b: int)
    requires d > 0 && d * a < d * b
    ensures a < b
  {
    if a >= b {
      MulMonotone(d, b, a);
    }
  }

  lemma MulMonotone(d: nat, a: int, b: int)
    requires a <= b
    ensures d * a <= d * b
  {
    assert d * b - d * a == d * (b - a);
  }

  /** In a sorted list an earlier element is no larger. */
  lemma SortedAt(t: seq<int>, i: nat, j: nat)
    requires Sorted(t) && i <= j < |t|
    ensures t[i] <= t[j]
  {
  }
}
