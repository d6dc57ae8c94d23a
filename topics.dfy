/**
 * A topic of the cloud once its record has passed the schema check, and what
 * the engine derives from it: the sentiment category (`_setWordProperties`),
 * the size class (`_setWordSize`) and the popularity order of `_layoutWords`.
 */
module Topics {
  import opened Wrappers
  import opened Json
  import Schema
  import Sizes

  /** The `display` class: `positive`, `neutral` or `negative`. */
  datatype Category = Positive | Neutral | Negative

  /**
   * One topic, with the fields of its record (`labelText` holds `label`, a
   * reserved word in Dafny). `display` and `size` are absent until the engine sets them;
   * `sentiment` is kept as the record holds it (only its `typeof` is checked).
   */
  datatype Topic = Topic(
    id: string,
    labelText: string,
    volume: real,
    sentimentScore: real,
    sentiment: Value,
    display: Option<Category>,
    size: Option<int>)

  /** The topic a record that passed the schema check stands for. */
  function FromRecord(v: Value): (t: Topic)
    requires Schema.IsTopicRecord(v)
    ensures t.volume == v.fields["volume"].n && t.sentimentScore == v.fields["sentimentScore"].n
    ensures t.id == v.fields["id"].s && t.labelText == v.fields["label"].s
    ensures t.sentiment == v.fields["sentiment"]
    ensures t.display.None? && t.size.None?
  {
    Topic(v.fields["id"].s, v.fields["label"].s, v.fields["volume"].n,
          v.fields["sentimentScore"].n, v.fields["sentiment"], None, None)
  }

  // ---------------------------------------------------------------------
  // Sentiment category

  /** The category thresholds of `_setWordProperties`. */
  function Classify(score: real): (c: Category)
    ensures c == Positive <==> score > 60.0
    ensures c == Negative <==> score < 40.0
    ensures c == Neutral <==> 40.0 <= score <= 60.0
  {
    if score > 60.0 then Positive
    else if score < 40.0 then Negative
    else Neutral
  }

  function Rank(c: Category): int
  {
    match c
    case Negative => 0
    case Neutral => 1
    case Positive => 2
  }

  /** A higher score never gives a less positive category. */
  lemma ClassifyMonotone(s1: real, s2: real)
    requires s1 <= s2
    ensures Rank(Classify(s1)) <= Rank(Classify(s2))
  {
  }

  // ---------------------------------------------------------------------
  // Size class

  /** `item.size`: one more than the index of the closest bucket. */
  function SizeClass(volume: real, sizes: seq<real>): (k: int)
    ensures sizes == [] ==> k == 1
    ensures sizes != [] ==> 1 <= k <= |sizes|
  {
    Sizes.Closest(volume, sizes) + 1
  }

  /**
   * The size class is the closest bucket: no bucket is nearer than the
   * chosen one, and every earlier bucket is strictly farther, whenever some
   * bucket lies within the sentinel distance.
   */
  lemma SizeClassIsClosest(volume: real, sizes: seq<real>, i: nat)
    requires i < |sizes| && Sizes.Abs(volume - sizes[i]) < Sizes.Sentinel
    ensures var k := SizeClass(volume, sizes) - 1;
      && Sizes.Abs(volume - sizes[k]) <= Sizes.Abs(volume - sizes[i])
      && (i < k ==> Sizes.Abs(volume - sizes[k]) < Sizes.Abs(volume - sizes[i]))
  {
    Sizes.ClosestSpec(volume, sizes);
  }

  // ---------------------------------------------------------------------
  // Popularity order, `topics.sort((a, b) => b.volume - a.volume)`

  function Volumes(ts: seq<Topic>): (vs: seq<real>)
    ensures |vs| == |ts|
    ensures forall i :: 0 <= i < |ts| ==> vs[i] == ts[i].volume
  {
    if ts == [] then [] else [ts[0].volume] + Volumes(ts[1..])
  }

  predicate NonIncreasing(ts: seq<Topic>)
  {
    forall i, j :: 0 <= i < j < |ts| ==> ts[i].volume >= ts[j].volume
  }

  /** Insert `t` before the first topic whose volume is not above its own. */
  function InsertByVolume(t: Topic, ts: seq<Topic>): (r: seq<Topic>)
    ensures multiset(r) == multiset(ts) + multiset{t}
    ensures |r| == |ts| + 1
  {
    if ts == [] || t.volume >= ts[0].volume then [t] + ts
    else
      assert ts == [ts[0]] + ts[1..];
      [ts[0]] + InsertByVolume(t, ts[1..])
  }

  /** JavaScript's stable sort, most popular first. */
  function SortByVolume(ts: seq<Topic>): (r: seq<Topic>)
    ensures multiset(r) == multiset(ts)
    ensures |r| == |ts|
  {
    if ts == [] then []
    else
      assert ts == [ts[0]] + ts[1..];
      InsertByVolume(ts[0], SortByVolume(ts[1..]))
  }

  /** The topics of one volume, in order. */
  function WithVolume(ts: seq<Topic>, v: real): seq<Topic>
  {
    if ts == [] then []
    else (if ts[0].volume == v then [ts[0]] else []) + WithVolume(ts[1..], v)
  }

  lemma {:induction false} InsertNonIncreasing(t: Topic, ts: seq<Topic>)
    requires NonIncreasing(ts)
    ensures NonIncreasing(InsertByVolume(t, ts))
  {
    if ts != [] && t.volume < ts[0].volume {
      InsertNonIncreasing(t, ts[1..]);
      var r := InsertByVolume(t, ts[1..]);
      forall k | 0 <= k < |r| ensures ts[0].volume >= r[k].volume {
        assert r[k] in multiset(r);
        if r[k] != t {
          assert r[k] in multiset(ts[1..]);
          var m :| 0 <= m < |ts[1..]| && ts[1..][m] == r[k];
          assert ts[1 + m] == r[k];
        }
      }
    }
  }

  lemma {:induction false} InsertWithVolume(t: Topic, ts: seq<Topic>, v: real)
    ensures WithVolume(InsertByVolume(t, ts), v) ==
      (if t.volume == v then [t] else []) + WithVolume(ts, v)
  {
    if ts != [] && t.volume < ts[0].volume {
      InsertWithVolume(t, ts[1..], v);
      var r := [ts[0]] + InsertByVolume(t, ts[1..]);
      assert r[1..] == InsertByVolume(t, ts[1..]);
      assert InsertByVolume(t, ts) == r;
      assert WithVolume(r, v) == (if ts[0].volume == v then [ts[0]] else []) + WithVolume(r[1..], v);
      assert t.volume == v ==> ts[0].volume != v;
    } else {
      var r := [t] + ts;
      assert r[1..] == ts;
      assert InsertByVolume(t, ts) == r;
      assert WithVolume(r, v) == (if t.volume == v then [t] else []) + WithVolume(r[1..], v);
    }
  }

  /** The sort puts the most popular topics first. */
  lemma {:induction false} SortByVolumeOrdered(ts: seq<Topic>)
    ensures NonIncreasing(SortByVolume(ts))
  {
    if ts != [] {
      SortByVolumeOrdered(ts[1..]);
      InsertNonIncreasing(ts[0], SortByVolume(ts[1..]));
    }
  }

  /** The sort is stable: topics of equal volume keep their relative order. */
  lemma {:induction false} SortByVolumeStable(ts: seq<Topic>, v: real)
    ensures WithVolume(SortByVolume(ts), v) == WithVolume(ts, v)
  {
    if ts != [] {
      SortByVolumeStable(ts[1..], v);
      InsertWithVolume(ts[0], SortByVolume(ts[1..]), v);
    }
  }
}
