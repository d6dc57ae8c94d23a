/**
 * The `Cloudia` engine: one cloud's settings, its topics, the size buckets
 * and the rectangles placed so far, and the operations that recompute them
 * (`_initialise`, `_setWordProperties`, `_setWordSize`, `_setWordPosition`,
 * `_layoutWords`, `_resize` and the `_update...` setters).
 */
module Cloudia {
  import opened Wrappers
  import opened Json
  import Schema
  import Sizes
  import opened Geometry
  import opened Topics
  import opened Placement

  const DefaultSizeCount: int := 6
  const DefaultGenerationSpeed: int := 10
  const DefaultRotationStep: real := 20.0

  /** `parseInt(x, 10)` of a number: its integer part, truncated toward zero. */
  function ParseInt(x: real): (n: int)
    ensures 0.0 <= x ==> n as real <= x < n as real + 1.0
    ensures x < 0.0 ==> n as real - 1.0 < x <= n as real
  {
    if x >= 0.0 then x.Floor else -((-x).Floor)
  }

  /**
   * `_centerPosition`: the middle of the container when it has a size in
   * both directions, and otherwise the middle of the window.
   */
  function CentreOf(window: Dims, container: Dims): (c: Point)
    ensures container.width > 0.0 && container.height > 0.0 ==>
      2.0 * c.x == container.width && 2.0 * c.y == container.height
    ensures !(container.width > 0.0 && container.height > 0.0) ==>
      2.0 * c.x == window.width && 2.0 * c.y == window.height
  {
    if container.width > 0.0 && container.height > 0.0
    then Point(container.width / 2.0, container.height / 2.0)
    else Point(window.width / 2.0, window.height / 2.0)
  }

  /** The measured size of every topic, in order. */
  function MeasureAll(measure: Topic -> Dims, ts: seq<Topic>): (ds: seq<Dims>)
    ensures |ds| == |ts|
    ensures forall k :: 0 <= k < |ts| ==> ds[k] == measure(ts[k])
  {
    if ts == [] then [] else [measure(ts[0])] + MeasureAll(measure, ts[1..])
  }

  /** The topics the passing records stand for, in order. */
  function Records(vs: seq<Value>): (ts: seq<Topic>)
    requires forall v :: v in vs ==> Schema.ItemConforms(v, Schema.ItemSchema) == Schema.Conforms
    ensures |ts| == |vs|
    ensures forall k :: 0 <= k < |vs| ==> Schema.IsTopicRecord(vs[k]) && ts[k] == FromRecord(vs[k])
  {
    if vs == [] then []
    else
      Schema.ItemSchemaVerdict(vs[0]);
      [FromRecord(vs[0])] + Records(vs[1..])
  }

  /** Every topic with its size class for `sizes` (`_setWordSize`). */
  function Resized(ts: seq<Topic>, sizes: seq<real>): (r: seq<Topic>)
    ensures |r| == |ts|
    ensures forall k :: 0 <= k < |ts| ==> r[k] == ts[k].(size := Some(SizeClass(ts[k].volume, sizes)))
  {
    if ts == [] then []
    else [ts[0].(size := Some(SizeClass(ts[0].volume, sizes)))] + Resized(ts[1..], sizes)
  }

  /** A topic with its category and size class (`_setWordProperties`). */
  function Dress(t: Topic, sizes: seq<real>): Topic
  {
    t.(display := Some(Classify(t.sentimentScore)), size := Some(SizeClass(t.volume, sizes)))
  }

  /** Every topic with its category and size class. */
  function Dressed(ts: seq<Topic>, sizes: seq<real>): (r: seq<Topic>)
    ensures |r| == |ts|
    ensures forall k :: 0 <= k < |ts| ==> r[k] == Dress(ts[k], sizes)
  {
    if ts == [] then [] else [Dress(ts[0], sizes)] + Dressed(ts[1..], sizes)
  }

  /** The first `n` topics dressed, the others as they were. */
  function DressedThrough(ts: seq<Topic>, sizes: seq<real>, n: nat): (r: seq<Topic>)
    requires n <= |ts|
    ensures |r| == |ts|
    ensures forall k :: 0 <= k < n ==> r[k] == Dress(ts[k], sizes)
    ensures forall k :: n <= k < |ts| ==> r[k] == ts[k]
  {
    Dressed(ts[..n], sizes) + ts[n..]
  }

  /**
   * The first topic whose `sentiment` is null, or the number of topics:
   * `_createWord` reads `item['sentiment']['positive']`, which throws there.
   */
  function FirstNullSentiment(ts: seq<Topic>): (k: nat)
    ensures k <= |ts|
    ensures k < |ts| ==> ts[k].sentiment.Null?
    ensures forall j :: 0 <= j < k ==> !ts[j].sentiment.Null?
  {
    if ts == [] then 0
    else if ts[0].sentiment.Null? then 0
    else 1 + FirstNullSentiment(ts[1..])
  }

  /**
   * With at least one bucket allowed, every topic's size class lies between
   * 1 and the number of sizes asked for.
   */
  lemma SizeClassesWithinCount(ts: seq<Topic>, count: int)
    requires count >= 1
    ensures forall k :: 0 <= k < |ts| ==>
      1 <= SizeClass(ts[k].volume, Sizes.SizeRange(Volumes(ts), count)) <= count
  {
    var d := Sizes.Distinct(Volumes(ts));
    Sizes.SortStrict(d);
    Sizes.ReduceSpec(Sizes.Sort(d), count);
  }

  /**
   * How `_createCloudFromData` leaves the topics and the rectangles when it
   * starts from the topics `ts` with the buckets `sizes`: it fails at the
   * first topic whose `sentiment` is null, with the topics up to it dressed
   * and nothing laid out; otherwise the dressed topics are laid out by the
   * search `s` in popularity order.
   */
  ghost predicate CreatedFrom(ts: seq<Topic>, sizes: seq<real>, s: Search, measure: Topic -> Dims, fuel: nat,
                              r: Outcome, topics: seq<Topic>, positions: seq<Rect>, before: seq<Rect>)
  {
    && (r.WordFailed? || r.Laid?)
    && (r.WordFailed? <==> FirstNullSentiment(ts) < |ts|)
    && (r.WordFailed? ==>
      && r.index == FirstNullSentiment(ts)
      && topics == DressedThrough(ts, sizes, r.index + 1)
      && positions == before)
    && (r.Laid? ==>
      && topics == SortByVolume(Dressed(ts, sizes))
      && LaidOutWithin(s, MeasureAll(measure, topics), positions, fuel)
      && (r.complete <==> |positions| == |topics|))
  }

  /**
   * How the part of `_initialise` after the schema check leaves the buckets,
   * the topics and the rectangles when it starts from the topics `ts`: it
   * never returns when no bucket is allowed yet there are distinct volumes;
   * otherwise the buckets are computed and the cloud is built from `ts`.
   */
  ghost predicate BuiltFrom(ts: seq<Topic>, sizeCount: int, sizesBefore: seq<real>, sizes: seq<real>,
                            s: Search, measure: Topic -> Dims, fuel: nat, r: Outcome,
                            topics: seq<Topic>, positions: seq<Rect>, before: seq<Rect>)
  {
    && !r.SchemaFailed?
    && (r.Diverges? <==> sizeCount < 1 && |Sizes.Distinct(Volumes(ts))| > sizeCount)
    && (r.Diverges? ==> topics == ts && sizes == sizesBefore && positions == before)
    && (!r.Diverges? ==>
      && sizes == (if sizeCount >= 1 then Sizes.SizeRange(Volumes(ts), sizeCount) else [])
      && CreatedFrom(ts, sizes, s, measure, fuel, r, topics, positions, before))
  }

  /** A topic with a null `sentiment` ends `CreatedFrom` with `WordFailed`. */
  lemma WordFailedFrom(ts: seq<Topic>, sizes: seq<real>, s: Search, measure: Topic -> Dims, fuel: nat,
                       index: nat, topics: seq<Topic>, positions: seq<Rect>, before: seq<Rect>)
    requires index == FirstNullSentiment(ts) < |ts|
    requires topics == DressedThrough(ts, sizes, index + 1)
    requires positions == before
    ensures CreatedFrom(ts, sizes, s, measure, fuel, WordFailed(index), topics, positions, before)
  {
    var r := WordFailed(index);
    assert !r.Laid? && r.WordFailed? && r.index == index;
    assert r.WordFailed? ==> r.index == FirstNullSentiment(ts) && topics == DressedThrough(ts, sizes, r.index + 1) && positions == before;
  }

  /** A layout pass over the dressed topics ends `CreatedFrom` with `Laid`. */
  lemma LaidFrom(ts: seq<Topic>, sizes: seq<real>, s: Search, measure: Topic -> Dims, fuel: nat,
                 done: bool, topics: seq<Topic>, positions: seq<Rect>, before: seq<Rect>)
    requires FirstNullSentiment(ts) == |ts|
    requires topics == SortByVolume(Dressed(ts, sizes))
    requires LaidOutWithin(s, MeasureAll(measure, topics), positions, fuel)
    requires done <==> |positions| == |topics|
    ensures CreatedFrom(ts, sizes, s, measure, fuel, Laid(done), topics, positions, before)
  {
  }

  /** How `_initialise` ends. */
  datatype Outcome =
    | SchemaFailed(error: Schema.SchemaError)  // `_checkSchema` threw
    | Diverges                                 // `_calculateSizeRange` never returns
    | WordFailed(index: nat)                   // `_createWord` threw: this topic's `sentiment` is null
    | Laid(complete: bool)                     // the layout pass ran; `complete` when every word was placed

  class Cloud {
    var sizeCount: int
    var generationSpeed: int
    var rotationStep: real
    /** `_sizes`: the size buckets, ascending. */
    var sizes: seq<real>
    /** `_positions`: the rectangles placed so far in this layout pass. */
    var positions: seq<Rect>
    var centre: Point
    /** `_data['topics']`. */
    var topics: seq<Topic>
    /**
     * Whether `_initialise` got as far as the layout pass. Before that,
     * `_data` is null or its topics have no word elements, and the methods
     * that lay the words out again throw.
     */
    ghost var laidOut: bool
    const ignoreBadItems: bool
    /** The rendered width and height of a topic's word (`el.clientWidth`, `el.clientHeight`). */
    const measure: Topic -> Dims
    /** `(cos(rotation) * moveAmount, sin(rotation) * moveAmount)`, rotation in degrees. */
    const offset: (real, real) -> (real, real)

    /**
     * The settings part of the constructor: an option that is absent or
     * zero keeps the default; a count or speed is cut to an integer.
     */
    constructor (generationSpeedOption: Option<real>, sizeCountOption: Option<real>,
                 rotationStepOption: Option<real>, ignoreBadItems: bool,
                 measure: Topic -> Dims, offset: (real, real) -> (real, real))
      ensures generationSpeed == if generationSpeedOption.Some? && generationSpeedOption.value != 0.0
                                 then ParseInt(generationSpeedOption.value) else DefaultGenerationSpeed
      ensures sizeCount == if sizeCountOption.Some? && sizeCountOption.value != 0.0
                           then ParseInt(sizeCountOption.value) else DefaultSizeCount
      ensures rotationStep == if rotationStepOption.Some? && rotationStepOption.value != 0.0
                              then rotationStepOption.value else DefaultRotationStep
      ensures this.ignoreBadItems == ignoreBadItems
      ensures this.measure == measure && this.offset == offset
      ensures positions == [] && sizes == [] && topics == [] && !laidOut
    {
      generationSpeed := if generationSpeedOption.Some? && generationSpeedOption.value != 0.0
                         then ParseInt(generationSpeedOption.value) else DefaultGenerationSpeed;
      sizeCount := if sizeCountOption.Some? && sizeCountOption.value != 0.0
                   then ParseInt(sizeCountOption.value) else DefaultSizeCount;
      rotationStep := if rotationStepOption.Some? && rotationStepOption.value != 0.0
                      then rotationStepOption.value else DefaultRotationStep;
      this.ignoreBadItems := ignoreBadItems;
      this.measure := measure;
      this.offset := offset;
      positions := [];
      sizes := [];
      topics := [];
      centre := Point(0.0, 0.0);
      laidOut := false;
    }

    /** The parameters of the placement search. */
    function Config(): Search
      reads this`centre, this`generationSpeed, this`rotationStep
    {
      Search(centre, generationSpeed, rotationStep, offset)
    }

    /** `_setWordSize`: one more than the index of the closest bucket. */
    method SetWordSize(i: nat)
      requires i < |topics|
      modifies this`topics
      ensures topics == old(topics)[i := old(topics)[i].(size := Some(SizeClass(old(topics)[i].volume, sizes)))]
    {
      var closest := Sizes.GetClosestArrayItem(topics[i].volume, sizes);
      topics := topics[i := topics[i].(size := Some(closest + 1))];
    }

    /** `_setWordProperties`: the sentiment category, then the size class. */
    method SetWordProperties(i: nat)
      requires i < |topics|
      modifies this`topics
      ensures topics == old(topics)[i := Dress(old(topics)[i], sizes)]
    {
      var display;
      if topics[i].sentimentScore > 60.0 {
        display := Positive;
      } else if topics[i].sentimentScore < 40.0 {
        display := Negative;
      } else {
        display := Neutral;
      }
      topics := topics[i := topics[i].(display := Some(display))];
      SetWordSize(i);
    }

    /** The `topics.map(... _setWordSize ...)` pass of `_updateSizeCount`. */
    method ResizeAll()
      modifies this`topics
      ensures topics == Resized(old(topics), sizes)
    {
      for i := 0 to |topics|
        invariant |topics| == |old(topics)|
        invariant forall k :: 0 <= k < i ==>
          topics[k] == old(topics)[k].(size := Some(SizeClass(old(topics)[k].volume, sizes)))
        invariant forall k :: i <= k < |topics| ==> topics[k] == old(topics)[k]
      {
        SetWordSize(i);
      }
    }

    /**
     * The `topics.map(... _createWord ...)` pass of `_createCloudFromData`:
     * every topic gets its category and size class, until a topic whose
     * `sentiment` is null makes `_createWord` throw right after that.
     */
    method DressAll() returns (ok: bool)
      modifies this`topics
      ensures ok <==> FirstNullSentiment(old(topics)) == |old(topics)|
      ensures ok ==> topics == Dressed(old(topics), sizes)
      ensures !ok ==> topics == DressedThrough(old(topics), sizes, FirstNullSentiment(old(topics)) + 1)
    {
      for i := 0 to |topics|
        invariant |topics| == |old(topics)|
        invariant forall k :: 0 <= k < i ==> !old(topics)[k].sentiment.Null?
        invariant forall k :: 0 <= k < i ==> topics[k] == Dress(old(topics)[k], sizes)
        invariant forall k :: i <= k < |topics| ==> topics[k] == old(topics)[k]
      {
        SetWordProperties(i);
        if topics[i].sentiment.Null? {
          // `item['sentiment']['positive']` on null
          assert FirstNullSentiment(old(topics)) == i;
          assert topics == DressedThrough(old(topics), sizes, i + 1);
          return false;
        }
      }
      assert topics == Dressed(old(topics), sizes);
      return true;
    }

    /**
     * `_setWordPosition`: start centred and, while the candidate overlaps a
     * placed rectangle, move out by `generationSpeed` and try each rotation
     * `0, rotationStep, ...` below 360 degrees, taking the first free one.
     * The source searches without bound; `fuel` bounds the number of probes,
     * and the method gives up only when each of the first `fuel` probes of
     * the search overlaps, leaving `positions` unchanged.
     */
    method SetWordPosition(i: nat, fuel: nat) returns (placed: bool)
      requires i < |topics|
      modifies this`positions
      ensures !placed ==> positions == old(positions) && Exhausted(Config(), positions, measure(topics[i]), fuel)
      ensures placed ==>
        && |positions| == |old(positions)| + 1
        && positions[..|old(positions)|] == old(positions)
        && IsPlacement(Config(), old(positions), measure(topics[i]), positions[|old(positions)|])
        && !Exhausted(Config(), old(positions), measure(topics[i]), fuel)
    {
      var d := measure(topics[i]);
      ghost var s := Config();
      var x := centre.x - d.width / 2.0;
      var y := centre.y - d.height / 2.0;
      var left: nat := fuel;
      var moveAmount := 0.0;
      ghost var ring: nat := 0;
      ghost var turn: nat := 0;
      ghost var made: nat := 0;
      ghost var hit: nat := 0;
      var overlapping := IsOverlappingExisting(positions, Rect(x, y, d.width, d.height));
      while overlapping
        invariant positions == old(positions)
                invariant moveAmount == Distance(s, ring)
        invariant overlapping == IsOverlappingExisting(positions, Rect(x, y, d.width, d.height))
        invariant overlapping ==> Rect(x, y, d.width, d.height) == Centred(s, d)
        invariant ring == 0 ==> Rect(x, y, d.width, d.height) == Centred(s, d)
        invariant ring > 0 ==> IsOverlappingExisting(positions, Centred(s, d))
        invariant overlapping && ring > 0 ==> s.rotationStep > 0.0
        invariant !overlapping && ring > 0 ==>
          FirstFreeProbe(s, positions, d, ring, turn) && Rect(x, y, d.width, d.height) == Probe(s, d, ring, turn)
        invariant overlapping ==>
          forall k: nat, j: nat :: 1 <= k <= ring && InRing(s, j) ==> IsOverlappingExisting(positions, Probe(s, d, k, j))
        invariant overlapping ==> made + left == fuel && NthProbe(s, made) == (ring + 1, 0)
        invariant !overlapping && ring > 0 ==> hit < fuel && NthProbe(s, hit) == (ring, turn)
        decreases left, overlapping
      {
        if left == 0 {
          ExhaustedBefore(s, positions, d, fuel, ring + 1, 0);
          return false;
        }
        DistanceNext(s, ring);
        moveAmount := moveAmount + generationSpeed as real;
        ring := ring + 1;
        var rotation := 0.0;
        turn := 0;
        ghost var before := left;
        ghost var found := false;
        assert moveAmount == Distance(s, ring);
        while rotation < 360.0
          invariant positions == old(positions)
                    invariant rotation == Rotation(s, turn)
          invariant moveAmount == Distance(s, ring)
          invariant left <= before && (turn > 0 ==> left < before)
          invariant forall j: nat :: j < turn ==> IsOverlappingExisting(positions, Probe(s, d, ring, j))
          invariant Rect(x, y, d.width, d.height) == Centred(s, d)
          invariant !found
          invariant made + left == fuel
          invariant InRing(s, turn) ==> NthProbe(s, made) == (ring, turn)
          invariant !InRing(s, turn) ==> NthProbe(s, made) == (ring + 1, 0)
          decreases left
        {
          if left == 0 {
            ExhaustedBefore(s, positions, d, fuel, ring, turn);
            return false;
          }
          left := left - 1;
          var o := offset(moveAmount, rotation);
          ProbeAt(s, d, ring, turn, moveAmount, rotation);
          if !IsOverlappingExisting(positions, Rect(x + o.0, y + o.1, d.width, d.height)) {
            x := x + o.0;
            y := y + o.1;
            found := true;
            hit := made;
            break;
          }
          RotationNext(s, turn);
          rotation := rotation + rotationStep;
          turn := turn + 1;
          made := made + 1;
        }
        overlapping := IsOverlappingExisting(positions, Rect(x, y, d.width, d.height));
        assert found ==> !overlapping && InRing(s, turn) && Rect(x, y, d.width, d.height) == Probe(s, d, ring, turn);
        assert found ==> hit < fuel && NthProbe(s, hit) == (ring, turn);
        assert !found ==> 360.0 <= Rotation(s, turn);
        if overlapping {
          FullTurnNeedsStep(s, turn);
          forall k: nat, j: nat | 1 <= k <= ring && InRing(s, j)
            ensures IsOverlappingExisting(positions, Probe(s, d, k, j))
          {
            if k == ring {
              TurnsBelow(s, j, turn);
            }
          }
        }
      }
      if ring > 0 {
        assert NthRect(s, d, hit) == Rect(x, y, d.width, d.height);
      }
      assert !Exhausted(s, positions, d, fuel);
      positions := positions + [Rect(x, y, d.width, d.height)];
      placed := true;
    }

    /**
     * `_layoutWords`: clear the placed rectangles, sort the topics from most
     * to least popular, then place each topic in that order.
     */
    method LayoutWords(fuel: nat) returns (complete: bool)
      modifies this`positions, this`topics
      ensures topics == SortByVolume(old(topics))
      ensures LaidOutWithin(Config(), MeasureAll(measure, topics), positions, fuel)
      ensures complete <==> |positions| == |topics|
      ensures Disjoint(positions)
      ensures |topics| > 0 ==> |positions| > 0 && positions[0] == Centred(Config(), measure(topics[0]))
    {
      positions := [];
      topics := SortByVolume(topics);
      ghost var sorted := topics;
      ghost var s := Config();
      ghost var dims := MeasureAll(measure, topics);
      var i := 0;
      while i < |topics|
        invariant topics == sorted && Config() == s
        invariant i <= |topics| && |positions| == i
        invariant PlacedInOrder(s, dims, positions) && Unexhausted(s, dims, positions, fuel)
        invariant i > 0 ==> positions[0] == Centred(s, dims[0])
      {
        ghost var before := positions;
        var placed := SetWordPosition(i, fuel);
        if !placed {
          if i == 0 {
            assert false;  // nothing is placed yet, so the centred rectangle is free
          }
          break;
        }
        PlacedInOrderExtend(s, dims, before, positions[i]);
        UnexhaustedExtend(s, dims, before, positions[i], fuel);
        assert positions == before + [positions[i]];
        i := i + 1;
      }
      complete := i == |topics|;
      assert !complete ==> Exhausted(s, positions, dims[i], fuel);
      assert LaidOutWithin(s, dims, positions, fuel);
      PlacedInOrderDisjoint(s, dims, positions);
    }

    /** `_resize`: recentre, then lay the words out again. */
    method Resize(window: Dims, container: Dims, fuel: nat) returns (complete: bool)
      requires laidOut
      modifies this`centre, this`positions, this`topics
      ensures centre == CentreOf(window, container)
      ensures topics == SortByVolume(old(topics))
      ensures LaidOutWithin(Config(), MeasureAll(measure, topics), positions, fuel)
      ensures complete <==> |positions| == |topics|
    {
      centre := CentreOf(window, container);
      complete := LayoutWords(fuel);
    }

    /**
     * `_updateSizeCount`: recompute the buckets for the new count, give every
     * topic its new size class and lay the words out again. `None`: no
     * bucket is allowed yet there are distinct volumes, where the source
     * never returns from `_calculateSizeRange`.
     */
    method UpdateSizeCount(count: real, fuel: nat) returns (complete: Option<bool>)
      requires laidOut
      modifies this`sizeCount, this`sizes, this`positions, this`topics
      ensures sizeCount == ParseInt(count)
      ensures complete.None? <==> sizeCount < 1 && |Sizes.Distinct(Volumes(old(topics)))| > sizeCount
      ensures complete.None? ==> sizes == old(sizes) && positions == old(positions) && topics == old(topics)
      ensures complete.Some? ==>
        && sizes == (if sizeCount >= 1 then Sizes.SizeRange(Volumes(old(topics)), sizeCount) else [])
        && topics == SortByVolume(Resized(old(topics), sizes))
        && LaidOutWithin(Config(), MeasureAll(measure, topics), positions, fuel)
        && (complete.value <==> |positions| == |topics|)
    {
      sizeCount := ParseInt(count);
      var range := Sizes.CalculateSizeRange(Volumes(topics), sizeCount);
      if range.None? {
        return None;
      }
      sizes := range.value;
      ResizeAll();
      var done := LayoutWords(fuel);
      complete := Some(done);
    }

    /** `_updateGenerationSpeed`: the new step outward, then a new layout. */
    method UpdateGenerationSpeed(speed: real, fuel: nat) returns (complete: bool)
      requires laidOut
      modifies this`generationSpeed, this`positions, this`topics
      ensures generationSpeed == ParseInt(speed)
      ensures topics == SortByVolume(old(topics))
      ensures LaidOutWithin(Config(), MeasureAll(measure, topics), positions, fuel)
      ensures complete <==> |positions| == |topics|
    {
      generationSpeed := ParseInt(speed);
      complete := LayoutWords(fuel);
    }

    /**
     * `_updateRotationStep`: the new rotation step, cut to an integer as
     * `parseInt` does (the constructor keeps fractions), then a new layout.
     */
    method UpdateRotationStep(step: real, fuel: nat) returns (complete: bool)
      requires laidOut
      modifies this`rotationStep, this`positions, this`topics
      ensures rotationStep == ParseInt(step) as real
      ensures topics == SortByVolume(old(topics))
      ensures LaidOutWithin(Config(), MeasureAll(measure, topics), positions, fuel)
      ensures complete <==> |positions| == |topics|
    {
      rotationStep := ParseInt(step) as real;
      complete := LayoutWords(fuel);
    }

    /**
     * `_createCloudFromData`: give every topic its category and size class,
     * then lay the words out; a topic with a null `sentiment` stops it
     * before the layout.
     */
    method CreateCloudFromData(fuel: nat) returns (r: Outcome)
      modifies this`positions, this`topics, this`laidOut
      ensures laidOut <==> r.Laid?
      ensures CreatedFrom(old(topics), sizes, Config(), measure, fuel, r, topics, positions, old(positions))
    {
      ghost var ts := topics;
      var failing := FirstNullSentiment(topics);
      var ok := DressAll();
      if !ok {
        laidOut := false;
        r := WordFailed(failing);
        WordFailedFrom(ts, sizes, Config(), measure, fuel, failing, topics, positions, old(positions));
        return;
      }
      ghost var dressed := topics;
      laidOut := true;
      var done := LayoutWords(fuel);
      assert dressed == Dressed(ts, sizes) && topics == SortByVolume(dressed);
      r := Laid(done);
      LaidFrom(ts, sizes, Config(), measure, fuel, done, topics, positions, old(positions));
    }

    /**
     * The part of `_initialise` after the schema check: compute the buckets,
     * then build the cloud from the data.
     */
    method CreateCloud(fuel: nat) returns (r: Outcome)
      modifies this`sizes, this`positions, this`topics, this`laidOut
      ensures laidOut <==> r.Laid?
      ensures BuiltFrom(old(topics), sizeCount, old(sizes), sizes, Config(), measure, fuel, r, topics, positions, old(positions))
    {
      var range := Sizes.CalculateSizeRange(Volumes(topics), sizeCount);
      if range.None? {
        laidOut := false;
        return Diverges;
      }
      sizes := range.value;
      r := CreateCloudFromData(fuel);
    }

    /**
     * `_initialise`: centre, check the records against the item schema, take
     * the topics they stand for, then build the cloud.
     */
    method Initialise(data: Value, window: Dims, container: Dims, fuel: nat) returns (r: Outcome)
      modifies this`centre, this`sizes, this`positions, this`topics, this`laidOut
      ensures centre == CentreOf(window, container)
      ensures laidOut <==> r.Laid?
      ensures Schema.Checked(data, Schema.ItemSchema, ignoreBadItems).Err? ==>
        && r == SchemaFailed(Schema.Checked(data, Schema.ItemSchema, ignoreBadItems).error)
        && topics == old(topics) && sizes == old(sizes) && positions == old(positions)
      ensures Schema.Checked(data, Schema.ItemSchema, ignoreBadItems).Ok? ==>
        BuiltFrom(Records(Schema.Checked(data, Schema.ItemSchema, ignoreBadItems).value),
                  sizeCount, old(sizes), sizes, Config(), measure, fuel, r, topics, positions, old(positions))
    {
      centre := CentreOf(window, container);
      var checked := Schema.CheckSchema(data, Schema.ItemSchema, ignoreBadItems);
      if checked.Err? {
        laidOut := false;
        return SchemaFailed(checked.error);
      }
      assert checked == Schema.Checked(data, Schema.ItemSchema, ignoreBadItems);
      ghost var ts := Records(checked.value);
      topics := Records(checked.value);
      assert topics == ts;
      r := CreateCloud(fuel);
    }
  }
}
