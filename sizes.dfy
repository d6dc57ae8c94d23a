/**
 * Size bucketing: `_calculateSizeRange` reduces the distinct topic volumes to
 * at most `sizeCount` representative values by repeatedly merging the closest
 * adjacent pair (`_averageClosesValues`); `_getClosestArrayItem` maps a
 * volume to its bucket. Both scans start from the sentinel 999999.
 */
module Sizes {
  import opened Wrappers

  /** The initial "minimum" of both scans. */
  const Sentinel: real := 999999.0

  predicate Ascending(s: seq<real>)
  {
    forall i, j :: 0 <= i < j < |s| ==> s[i] <= s[j]
  }

  predicate StrictlyAscending(s: seq<real>)
  {
    forall i, j :: 0 <= i < j < |s| ==> s[i] < s[j]
  }

  predicate NoDuplicates(s: seq<real>)
  {
    forall i, j :: 0 <= i < j < |s| ==> s[i] != s[j]
  }

  // ---------------------------------------------------------------------
  // Numeric sort, `values.sort((a, b) => a - b)`

  function Insert(x: real, s: seq<real>): (r: seq<real>)
    ensures multiset(r) == multiset(s) + multiset{x}
    ensures |r| == |s| + 1
  {
    if s == [] || x <= s[0] then [x] + s
    else
      assert s == [s[0]] + s[1..];
      [s[0]] + Insert(x, s[1..])
  }

  lemma {:induction false} InsertAscending(x: real, s: seq<real>)
    requires Ascending(s)
    ensures Ascending(Insert(x, s))
  {
    if s != [] && x > s[0] {
      InsertAscending(x, s[1..]);
      var t := Insert(x, s[1..]);
      forall k | 0 <= k < |t| ensures s[0] <= t[k] {
        assert t[k] in multiset(t);
        assert t[k] in multiset(s[1..]) || t[k] == x;
        if t[k] != x {
          var m :| 0 <= m < |s[1..]| && s[1..][m] == t[k];
          assert s[1 + m] == t[k];
        }
      }
    }
  }

  lemma {:induction false} InsertStrict(x: real, s: seq<real>)
    requires StrictlyAscending(s) && x !in s
    ensures StrictlyAscending(Insert(x, s))
  {
    if s != [] && x > s[0] {
      InsertStrict(x, s[1..]);
      var t := Insert(x, s[1..]);
      forall k | 0 <= k < |t| ensures s[0] < t[k] {
        assert t[k] in multiset(t);
        assert t[k] in multiset(s[1..]) || t[k] == x;
        if t[k] != x {
          var m :| 0 <= m < |s[1..]| && s[1..][m] == t[k];
          assert s[1 + m] == t[k];
        }
      }
    }
  }

  /** Ascending order, as JavaScript's sort with comparator `a - b` gives it. */
  function Sort(s: seq<real>): (r: seq<real>)
    ensures multiset(r) == multiset(s)
    ensures |r| == |s|
  {
    if s == [] then []
    else
      assert s == [s[0]] + s[1..];
      Insert(s[0], Sort(s[1..]))
  }

  lemma {:induction false} SortAscending(s: seq<real>)
    ensures Ascending(Sort(s))
  {
    if s != [] {
      SortAscending(s[1..]);
      InsertAscending(s[0], Sort(s[1..]));
    }
  }

  /** Sorting values without duplicates leaves them strictly ascending. */
  lemma {:induction false} SortStrict(s: seq<real>)
    requires NoDuplicates(s)
    ensures StrictlyAscending(Sort(s))
  {
    if s != [] {
      assert NoDuplicates(s[1..]) by {
        forall i, j | 0 <= i < j < |s[1..]| ensures s[1..][i] != s[1..][j] {
          assert s[1 + i] != s[1 + j];
        }
      }
      SortStrict(s[1..]);
      var t := Sort(s[1..]);
      assert s[0] !in s[1..] by {
        forall m | 0 <= m < |s[1..]| ensures s[1..][m] != s[0] {
          assert s[1 + m] != s[0];
        }
      }
      assert s[0] !in multiset(t);
      InsertStrict(s[0], t);
    }
  }

  /** Sorting an already sorted sequence changes nothing. */
  lemma {:induction false} SortSorted(s: seq<real>)
    requires Ascending(s)
    ensures Sort(s) == s
  {
    if s != [] {
      SortSorted(s[1..]);
      assert s == [s[0]] + s[1..];
    }
  }

  // ---------------------------------------------------------------------
  // `_averageClosesValues`

  function Gap(s: seq<real>, i: nat): real
    requires i + 1 < |s|
  {
    s[i + 1] - s[i]
  }

  /** The scan's `min` once `v` is its chosen index. */
  function RunningGap(s: seq<real>, v: nat): real
    requires v + 1 < |s|
  {
    if Gap(s, v) < Sentinel then Gap(s, v) else Sentinel
  }

  /** The scan's `val` after it has looked at the pairs 0..k. */
  function PairUpTo(s: seq<real>, k: nat): (v: nat)
    requires k + 1 < |s|
    ensures v <= k
  {
    if k == 0 then 0
    else
      var b := PairUpTo(s, k - 1);
      if Gap(s, k) < RunningGap(s, b) then k else b
  }

  /** The pair `_averageClosesValues` merges. */
  function ChosenPair(s: seq<real>): (v: nat)
    requires |s| >= 2
    ensures v + 1 < |s|
  {
    PairUpTo(s, |s| - 2)
  }

  /** `array.splice(v, 2, mean)`: the pair at `v` replaced by its mean. */
  function MergeAt(s: seq<real>, v: nat): (r: seq<real>)
    requires v + 1 < |s|
    ensures |r| == |s| - 1
  {
    s[..v] + [(s[v] + s[v + 1]) / 2.0] + s[v + 2..]
  }

  /** What `_averageClosesValues` returns for `a`. */
  function MergeClosest(a: seq<real>): (r: seq<real>)
    requires |a| >= 2
    ensures |r| == |a| - 1
  {
    var s := Sort(a);
    MergeAt(s, ChosenPair(s))
  }

  /**
   * The pair to merge, stated without the scan: the lowest-index pair with
   * the smallest gap when some gap is below the sentinel, the first pair
   * otherwise.
   */
  predicate IsClosestPair(s: seq<real>, v: nat)
  {
    && v + 1 < |s|
    && if exists j :: 0 <= j < |s| - 1 && Gap(s, j) < Sentinel then
         && Gap(s, v) < Sentinel
         && (forall j :: 0 <= j < |s| - 1 ==> Gap(s, v) <= Gap(s, j))
         && (forall j :: 0 <= j < v ==> Gap(s, v) < Gap(s, j))
       else v == 0
  }

  lemma {:induction false} PairUpToSpec(s: seq<real>, k: nat)
    requires k + 1 < |s|
    ensures var v := PairUpTo(s, k);
      && ((forall j :: 0 <= j <= k ==> Gap(s, j) >= Sentinel) ==> v == 0 && RunningGap(s, v) == Sentinel)
      && ((exists j :: 0 <= j <= k && Gap(s, j) < Sentinel) ==>
            && Gap(s, v) < Sentinel
            && (forall j :: 0 <= j <= k ==> Gap(s, v) <= Gap(s, j))
            && (forall j :: 0 <= j < v ==> Gap(s, v) < Gap(s, j)))
  {
    if k > 0 {
      PairUpToSpec(s, k - 1);
      var b := PairUpTo(s, k - 1);
      if !(exists j :: 0 <= j <= k - 1 && Gap(s, j) < Sentinel) {
        assert b == 0 && RunningGap(s, b) == Sentinel;
      } else {
        assert RunningGap(s, b) == Gap(s, b);
      }
    }
  }

  lemma ChosenPairSpec(s: seq<real>)
    requires |s| >= 2
    ensures IsClosestPair(s, ChosenPair(s))
  {
    PairUpToSpec(s, |s| - 2);
  }

  /** The characterisation has one solution, so it fixes the merged pair. */
  lemma ClosestPairUnique(s: seq<real>, v: nat, w: nat)
    requires IsClosestPair(s, v) && IsClosestPair(s, w)
    ensures v == w
  {
  }

  /** Merging a pair of a strictly ascending sequence keeps it strictly ascending. */
  lemma MergeAtStrict(s: seq<real>, v: nat)
    requires v + 1 < |s| && StrictlyAscending(s)
    ensures StrictlyAscending(MergeAt(s, v))
  {
    var r := MergeAt(s, v);
    var m := (s[v] + s[v + 1]) / 2.0;
    assert s[v] < m < s[v + 1];
    assert forall k :: 0 <= k < v ==> r[k] == s[k];
    assert r[v] == m;
    assert forall k :: v < k < |r| ==> r[k] == s[k + 1];
  }

  /** Merging keeps every value inside any bounds the sequence already respects. */
  lemma MergeAtBounded(s: seq<real>, v: nat, lo: real, hi: real)
    requires v + 1 < |s|
    requires forall k :: 0 <= k < |s| ==> lo <= s[k] <= hi
    ensures forall k :: 0 <= k < |s| - 1 ==> lo <= MergeAt(s, v)[k] <= hi
  {
    var r := MergeAt(s, v);
    assert forall k :: 0 <= k < v ==> r[k] == s[k];
    assert forall k :: v < k < |r| ==> r[k] == s[k + 1];
  }

  /** On a strictly ascending input the merge is as the characterisation says. */
  lemma MergeClosestSpec(a: seq<real>)
    requires |a| >= 2 && StrictlyAscending(a)
    ensures IsClosestPair(a, ChosenPair(a))
    ensures MergeClosest(a) == MergeAt(a, ChosenPair(a))
    ensures StrictlyAscending(MergeClosest(a))
  {
    SortSorted(a);
    ChosenPairSpec(a);
    MergeAtStrict(a, ChosenPair(a));
  }

  /**
   * `_averageClosesValues`: sort the array, scan the adjacent differences
   * from the sentinel keeping the first strict minimum, then splice the
   * chosen pair into its mean.
   */
  method AverageClosestValues(a: seq<real>) returns (r: seq<real>)
    requires |a| >= 2
    ensures |r| == |a| - 1
    ensures r == MergeClosest(a)
  {
    var values := Sort(a);
    var min := Sentinel;
    var val: nat := 0;
    for index := 0 to |values|
      invariant index == 0 ==> val == 0 && min == Sentinel
      invariant 0 < index < |values| ==> val == PairUpTo(values, index - 1) && min == RunningGap(values, val)
      invariant index == |values| ==> val == PairUpTo(values, |values| - 2)
    {
      // for the last index, `array[index + 1] - value` is NaN and never below `min`
      if index + 1 < |values| {
        var dif := values[index + 1] - values[index];
        if dif < min {
          val := index;
          min := dif;
        }
      }
    }
    r := values[..val] + [(values[val] + values[val + 1]) / 2.0] + values[val + 2..];
  }

  // ---------------------------------------------------------------------
  // `_calculateSizeRange`

  /** The distinct values of `s` in order of first appearance. */
  function Distinct(s: seq<real>): (r: seq<real>)
    ensures NoDuplicates(r)
    ensures forall x :: x in r <==> x in s
    ensures |r| <= |s|
  {
    if s == [] then []
    else
      var d := Distinct(s[..|s| - 1]);
      var x := s[|s| - 1];
      assert forall y :: y in s <==> y in s[..|s| - 1] || y == x by {
        assert s == s[..|s| - 1] + [x];
      }
      if x in d then d else d + [x]
  }

  /** Merge closest pairs until at most `count` values remain. */
  function Reduce(s: seq<real>, count: int): (r: seq<real>)
    requires count >= 1
    ensures |r| == Min(|s|, count)
    decreases |s|
  {
    if |s| > count then Reduce(MergeClosest(s), count) else s
  }

  /** The buckets `_calculateSizeRange` computes for these volumes. */
  function SizeRange(volumes: seq<real>, count: int): (r: seq<real>)
    requires count >= 1
    ensures |r| == Min(|Distinct(volumes)|, count)
  {
    Reduce(Sort(Distinct(volumes)), count)
  }

  function Min(a: int, b: int): int
  {
    if a <= b then a else b
  }

  /**
   * Each merge removes exactly one value and keeps the sequence strictly
   * ascending, so the merging ends with `min(|s|, count)` values, and changes
   * nothing when `count` is already large enough.
   */
  lemma {:induction false} ReduceSpec(s: seq<real>, count: int)
    requires count >= 1 && StrictlyAscending(s)
    ensures StrictlyAscending(Reduce(s, count))
    ensures |Reduce(s, count)| == Min(|s|, count)
    ensures count >= |s| ==> Reduce(s, count) == s
    decreases |s|
  {
    if |s| > count {
      MergeClosestSpec(s);
      ReduceSpec(MergeClosest(s), count);
    }
  }

  /** Merging never leaves the range the values started in. */
  lemma {:induction false} ReduceBounded(s: seq<real>, count: int, lo: real, hi: real)
    requires count >= 1
    requires forall k :: 0 <= k < |s| ==> lo <= s[k] <= hi
    ensures forall k :: 0 <= k < |Reduce(s, count)| ==> lo <= Reduce(s, count)[k] <= hi
    decreases |s|
  {
    if |s| > count {
      var t := Sort(s);
      forall k | 0 <= k < |t| ensures lo <= t[k] <= hi {
        assert t[k] in multiset(s);
      }
      MergeAtBounded(t, ChosenPair(t), lo, hi);
      ReduceBounded(MergeClosest(s), count, lo, hi);
    }
  }

  /**
   * The bucket set: strictly ascending, `min(#distinct volumes, count)` long,
   * the sorted distinct volumes themselves when `count` is large enough, and
   * within the range of the volumes.
   */
  lemma SizeRangeSpec(volumes: seq<real>, count: int, lo: real, hi: real)
    requires count >= 1
    requires forall k :: 0 <= k < |volumes| ==> lo <= volumes[k] <= hi
    ensures StrictlyAscending(SizeRange(volumes, count))
    ensures |SizeRange(volumes, count)| == Min(|Distinct(volumes)|, count)
    ensures count >= |Distinct(volumes)| ==> SizeRange(volumes, count) == Sort(Distinct(volumes))
    ensures forall k :: 0 <= k < |SizeRange(volumes, count)| ==> lo <= SizeRange(volumes, count)[k] <= hi
  {
    var d := Distinct(volumes);
    SortStrict(d);
    ReduceSpec(Sort(d), count);
    forall k | 0 <= k < |Sort(d)| ensures lo <= Sort(d)[k] <= hi {
      assert Sort(d)[k] in multiset(d);
      assert Sort(d)[k] in volumes;
    }
    ReduceBounded(Sort(d), count, lo, hi);
  }

  /**
   * `_calculateSizeRange`: collect the distinct volumes, sort them, merge
   * until `sizeCount` remain. With `sizeCount < 1` and more values than
   * that, the source's loop never ends (a single value merges into NaN and
   * the length stays 1); the model answers None there.
   */
  method CalculateSizeRange(volumes: seq<real>, sizeCount: int) returns (r: Option<seq<real>>)
    ensures sizeCount >= 1 ==> r == Some(SizeRange(volumes, sizeCount))
    ensures sizeCount < 1 ==> (r.None? <==> |Distinct(volumes)| > sizeCount)
    ensures sizeCount < 1 && r.Some? ==> r.value == []
  {
    var values: seq<real> := [];
    for i := 0 to |volumes|
      invariant values == Distinct(volumes[..i])
    {
      assert volumes[..i + 1][..i] == volumes[..i];
      if volumes[i] !in values {
        values := values + [volumes[i]];
      }
    }
    assert volumes[..|volumes|] == volumes;
    ghost var distinct := values;
    values := Sort(values);
    if sizeCount < 1 {
      if |values| > sizeCount {
        return None;
      }
      assert |distinct| == 0;
      return Some([]);
    }
    while |values| > sizeCount
      invariant Reduce(values, sizeCount) == SizeRange(volumes, sizeCount)
      decreases |values|
    {
      values := AverageClosestValues(values);
    }
    return Some(values);
  }

  // ---------------------------------------------------------------------
  // `_getClosestArrayItem`

  function Abs(x: real): real
  {
    if x < 0.0 then -x else x
  }

  /** The scan's `minimum` once `out` is its answer after `k` elements. */
  function RunningDistance(val: real, a: seq<real>, out: nat, k: nat): real
    requires k <= |a| && (k > 0 ==> out < k)
  {
    if k > 0 && Abs(val - a[out]) < Sentinel then Abs(val - a[out]) else Sentinel
  }

  /** The scan's `out` after it has looked at the first `k` elements. */
  function ClosestUpTo(val: real, a: seq<real>, k: nat): (out: nat)
    requires k <= |a|
    ensures k == 0 ==> out == 0
    ensures k > 0 ==> out < k
  {
    if k == 0 then 0
    else
      var b := ClosestUpTo(val, a, k - 1);
      if Abs(val - a[k - 1]) < RunningDistance(val, a, b, k - 1) then k - 1 else b
  }

  /** The index `_getClosestArrayItem(val, a)` returns. */
  function Closest(val: real, a: seq<real>): (out: nat)
    ensures a == [] ==> out == 0
    ensures a != [] ==> out < |a|
  {
    ClosestUpTo(val, a, |a|)
  }

  /**
   * The closest index, stated without the scan: the lowest index of minimal
   * distance when some distance is below the sentinel, and 0 otherwise.
   */
  predicate IsClosestItem(val: real, a: seq<real>, out: nat)
  {
    if exists i :: 0 <= i < |a| && Abs(val - a[i]) < Sentinel then
      && out < |a|
      && Abs(val - a[out]) < Sentinel
      && (forall i :: 0 <= i < |a| ==> Abs(val - a[out]) <= Abs(val - a[i]))
      && (forall i :: 0 <= i < out ==> Abs(val - a[out]) < Abs(val - a[i]))
    else out == 0
  }

  lemma {:induction false} ClosestUpToSpec(val: real, a: seq<real>, k: nat)
    requires k <= |a|
    ensures IsClosestItem(val, a[..k], ClosestUpTo(val, a, k))
    ensures (forall i :: 0 <= i < k ==> Abs(val - a[i]) >= Sentinel) ==>
      RunningDistance(val, a, ClosestUpTo(val, a, k), k) == Sentinel
    ensures (exists i :: 0 <= i < k && Abs(val - a[i]) < Sentinel) ==>
      RunningDistance(val, a, ClosestUpTo(val, a, k), k) == Abs(val - a[ClosestUpTo(val, a, k)])
  {
    if k > 0 {
      ClosestUpToSpec(val, a, k - 1);
      assert forall i :: 0 <= i < k - 1 ==> a[..k - 1][i] == a[..k][i] == a[i];
    }
  }

  lemma ClosestSpec(val: real, a: seq<real>)
    ensures IsClosestItem(val, a, Closest(val, a))
  {
    ClosestUpToSpec(val, a, |a|);
    assert a[..|a|] == a;
  }

  /** The characterisation has one solution, so the bucket is well defined. */
  lemma ClosestUnique(val: real, a: seq<real>, out: nat, other: nat)
    requires IsClosestItem(val, a, out) && IsClosestItem(val, a, other)
    ensures out == other
  {
  }

  /**
   * `_getClosestArrayItem`: scan from the sentinel keeping the first strict
   * minimum of `|val - a[i]|`; 0 for an empty array.
   */
  method GetClosestArrayItem(val: real, a: seq<real>) returns (out: nat)
    ensures out == Closest(val, a)
    ensures IsClosestItem(val, a, out)
  {
    var minimum := Sentinel;
    out := 0;
    for index := 0 to |a|
      invariant out == ClosestUpTo(val, a, index)
      invariant minimum == RunningDistance(val, a, out, index)
    {
      var dif := Abs(val - a[index]);
      if dif < minimum {
        minimum := dif;
        out := index;
      }
    }
    ClosestSpec(val, a);
  }

  lemma DistinctOfThree(a: real, b: real, c: real)
    requires a < b < c
    ensures Distinct([a, b, c]) == [a, b, c]
  {
    var v := [a, b, c];
    assert v[..1] == [a] && [a][..0] == [];
    assert Distinct([a]) == [a];
    assert v[..2] == [a, b] && v[..2][..1] == [a];
    assert Distinct([a, b]) == [a, b];
    assert v[..|v| - 1] == [a, b];
  }

  lemma MergeOfThree(a: real, b: real, c: real, m: real)
    requires a < b < c && b - a <= c - b && m == (a + b) / 2.0
    ensures MergeClosest([a, b, c]) == [m, c]
  {
    var v := [a, b, c];
    assert Sort(v) == v by {
      SortSorted(v);
    }
    assert ChosenPair(v) == 0 by {
      assert PairUpTo(v, 0) == 0;
      assert Gap(v, 1) >= RunningGap(v, 0);
    }
    assert MergeAt(v, 0) == [m, c];
  }

  lemma MergeOfTwo(a: real, b: real, t: real)
    requires a < b && t == (a + b) / 2.0
    ensures MergeClosest([a, b]) == [t]
  {
    var v := [a, b];
    assert Sort(v) == v by {
      SortSorted(v);
    }
    assert MergeAt(v, 0) == [t];
  }

  lemma ReduceOfThree(a: real, b: real, c: real, m: real)
    requires a < b < c && b - a <= c - b && m == (a + b) / 2.0
    ensures Reduce([a, b, c], 1) == Reduce([m, c], 1)
  {
    var v := [a, b, c];
    MergeOfThree(a, b, c, m);
    assert Reduce(v, 1) == Reduce(MergeClosest(v), 1);
  }

  lemma ReduceOfTwo(m: real, c: real, t: real)
    requires m < c && t == (m + c) / 2.0
    ensures Reduce([m, c], 1) == [t]
  {
    var w := [m, c];
    MergeOfTwo(m, c, t);
    assert Reduce(w, 1) == Reduce(MergeClosest(w), 1);
    assert Reduce([t], 1) == [t];
  }

  /**
   * One bucket for three volumes whose first gap is not the larger: the
   * lower pair merges first, then the remaining two.
   */
  lemma ThreeVolumesOneBucket(a: real, b: real, c: real, m: real, t: real)
    requires a < b < c && b - a <= c - b
    requires m == (a + b) / 2.0 && t == (m + c) / 2.0
    ensures SizeRange([a, b, c], 1) == [t]
  {
    DistinctOfThree(a, b, c);
    SortSorted([a, b, c]);
    ReduceOfThree(a, b, c, m);
    ReduceOfTwo(m, c, t);
  }

  /** Volumes 10, 20, 30 with one size: all collapse into the bucket 22.5. */
  lemma SingleBucketExample()
    ensures SizeRange([10.0, 20.0, 30.0], 1) == [22.5]
  {
    ThreeVolumesOneBucket(10.0, 20.0, 30.0, 15.0, 22.5);
  }
}
