/**
 * What `_setWordPosition` searches: candidate rectangles for a word of a
 * measured size, starting centred and probing outward ring by ring, and the
 * rule for which candidate it accepts.
 */
module Placement {
  import opened Geometry

  datatype Point = Point(x: real, y: real)

  /** A word's measured width and height. */
  datatype Dims = Dims(width: real, height: real)

  /**
   * The search parameters: `_centerPosition`, `generationSpeed`,
   * `rotationStep`, and `offset(moveAmount, rotation)`, which stands for
   * `(cos(rotation) * moveAmount, sin(rotation) * moveAmount)`.
   */
  datatype Search = Search(
    centre: Point,
    generationSpeed: int,
    rotationStep: real,
    offset: (real, real) -> (real, real))

  /** The starting candidate: the word centred on the cloud's centre. */
  function Centred(s: Search, d: Dims): Rect
  {
    Rect(s.centre.x - d.width / 2.0, s.centre.y - d.height / 2.0, d.width, d.height)
  }

  /** How far ring `ring` lies from the centre: `ring * generationSpeed`. */
  function Distance(s: Search, ring: nat): real
  {
    ring as real * s.generationSpeed as real
  }

  /** The rotation of turn `turn`: `turn * rotationStep` degrees. */
  function Rotation(s: Search, turn: nat): real
  {
    turn as real * s.rotationStep
  }

  /** The next ring lies one `generationSpeed` further out. */
  lemma DistanceNext(s: Search, ring: nat)
    ensures Distance(s, ring + 1) == Distance(s, ring) + s.generationSpeed as real
  {
  }

  /** The next turn is one `rotationStep` further round. */
  lemma RotationNext(s: Search, turn: nat)
    ensures Rotation(s, turn + 1) == Rotation(s, turn) + s.rotationStep
  {
  }

  /**
   * Probe `turn` of ring `ring`: moved from the centred position by
   * `offset(ring * generationSpeed, turn * rotationStep)`.
   */
  function Probe(s: Search, d: Dims, ring: nat, turn: nat): Rect
  {
    Rect(Centred(s, d).x + s.offset(Distance(s, ring), Rotation(s, turn)).0,
         Centred(s, d).y + s.offset(Distance(s, ring), Rotation(s, turn)).1,
         d.width, d.height)
  }

  /** A probe is the centred rectangle moved by the offset for its ring and turn. */
  lemma ProbeAt(s: Search, d: Dims, ring: nat, turn: nat, moveAmount: real, rotation: real)
    requires moveAmount == Distance(s, ring) && rotation == Rotation(s, turn)
    ensures var o := s.offset(moveAmount, rotation);
      Probe(s, d, ring, turn) == Rect(Centred(s, d).x + o.0, Centred(s, d).y + o.1, d.width, d.height)
  {
  }

  /** The rotations one ring tries: 0, step, 2 step, ... while below 360. */
  predicate InRing(s: Search, turn: nat)
  {
    Rotation(s, turn) < 360.0
  }

  /**
   * The turns a ring tries are exactly those before the first turn at or
   * past 360 degrees.
   */
  lemma TurnsBelow(s: Search, j: nat, last: nat)
    requires Rotation(s, j) < 360.0 <= Rotation(s, last)
    ensures j < last
  {
    if j >= last {
      if s.rotationStep >= 0.0 {
        ScaleMonotone(last as real, j as real, s.rotationStep);
      } else {
        ScaleNonPositive(last as real, s.rotationStep);
      }
    }
  }

  /** A ring's rotation comes to 360 degrees only with a positive step. */
  lemma FullTurnNeedsStep(s: Search, last: nat)
    requires 360.0 <= Rotation(s, last)
    ensures s.rotationStep > 0.0
  {
    if s.rotationStep <= 0.0 {
      ScaleNonPositive(last as real, s.rotationStep);
    }
  }

  lemma ScaleMonotone(a: real, b: real, c: real)
    requires a <= b && 0.0 <= c
    ensures a * c <= b * c
  {
  }

  lemma ScaleNonPositive(a: real, c: real)
    requires 0.0 <= a && c <= 0.0
    ensures a * c <= 0.0
  {
  }

  /**
   * Probe (ring, turn) of the outward search is the first in search order
   * that is free: every probe of an earlier ring, and every earlier probe
   * of its own ring, overlaps a placed rectangle. A ring after the first is
   * reached only once the rotation of the one before has come to 360
   * degrees, which takes a positive rotation step.
   */
  ghost predicate FirstFreeProbe(s: Search, placed: seq<Rect>, d: Dims, ring: nat, turn: nat)
  {
    && 1 <= ring
    && (ring == 1 || s.rotationStep > 0.0)
    && InRing(s, turn)
    && !IsOverlappingExisting(placed, Probe(s, d, ring, turn))
    && (forall k: nat, j: nat :: 1 <= k < ring && InRing(s, j) ==> IsOverlappingExisting(placed, Probe(s, d, k, j)))
    && (forall j: nat :: j < turn ==> IsOverlappingExisting(placed, Probe(s, d, ring, j)))
  }

  /**
   * The probe tried after probe `turn` of ring `ring`: the next turn of the
   * same ring while its rotation is below 360 degrees, else the first turn
   * of the next ring.
   */
  function Next(s: Search, ring: nat, turn: nat): (nat, nat)
  {
    if InRing(s, turn + 1) then (ring, turn + 1) else (ring + 1, 0)
  }

  /** Ring and turn of the `n`-th probe the search tries, counting from 0. */
  function NthProbe(s: Search, n: nat): (p: (nat, nat))
    ensures 1 <= p.0 && InRing(s, p.1)
  {
    if n == 0 then (1, 0)
    else
      var q := NthProbe(s, n - 1);
      Next(s, q.0, q.1)
  }

  /** The rectangle of the `n`-th probe. */
  function NthRect(s: Search, d: Dims, n: nat): Rect
  {
    Probe(s, d, NthProbe(s, n).0, NthProbe(s, n).1)
  }

  /** Probe `p` comes before probe `q`: an earlier ring, or an earlier turn of the same ring. */
  predicate Before(p: (nat, nat), q: (nat, nat))
  {
    p.0 < q.0 || (p.0 == q.0 && p.1 < q.1)
  }

  /** The search tries its probes in order, so it never tries one twice. */
  lemma {:induction false} NthProbeOrdered(s: Search, m: nat, n: nat)
    requires m < n
    ensures Before(NthProbe(s, m), NthProbe(s, n))
  {
    if m < n - 1 {
      NthProbeOrdered(s, m, n - 1);
    }
  }

  /**
   * A search stopped after `budget` probes finds nothing: the centred
   * rectangle and each of the first `budget` probes overlap a placed one.
   */
  ghost predicate Exhausted(s: Search, placed: seq<Rect>, d: Dims, budget: nat)
  {
    && IsOverlappingExisting(placed, Centred(s, d))
    && forall n: nat :: n < budget ==> IsOverlappingExisting(placed, NthRect(s, d, n))
  }

  /**
   * When the `budget`-th probe is turn `turn` of ring `ring`, the first
   * `budget` probes are the turns of earlier rings and the earlier turns of
   * that ring, so their overlapping means the search is exhausted.
   */
  lemma ExhaustedBefore(s: Search, placed: seq<Rect>, d: Dims, budget: nat, ring: nat, turn: nat)
    requires NthProbe(s, budget) == (ring, turn)
    requires IsOverlappingExisting(placed, Centred(s, d))
    requires forall k: nat, j: nat :: 1 <= k < ring && InRing(s, j) ==> IsOverlappingExisting(placed, Probe(s, d, k, j))
    requires forall j: nat :: j < turn ==> IsOverlappingExisting(placed, Probe(s, d, ring, j))
    ensures Exhausted(s, placed, d, budget)
  {
    forall n: nat | n < budget ensures IsOverlappingExisting(placed, NthRect(s, d, n)) {
      NthProbeOrdered(s, n, budget);
    }
  }

  /**
   * Where `_setWordPosition` puts a word of size `d` among `placed`: the
   * centred rectangle when it is free, and otherwise the first free probe.
   */
  ghost predicate IsPlacement(s: Search, placed: seq<Rect>, d: Dims, r: Rect): (b: bool)
    ensures b ==> !IsOverlappingExisting(placed, r)
  {
    if !IsOverlappingExisting(placed, Centred(s, d)) then r == Centred(s, d)
    else exists ring: nat, turn: nat :: FirstFreeProbe(s, placed, d, ring, turn) && r == Probe(s, d, ring, turn)
  }

  /** An accepted position has the word's size and overlaps nothing placed. */
  lemma PlacementFree(s: Search, placed: seq<Rect>, d: Dims, r: Rect)
    requires IsPlacement(s, placed, d, r)
    ensures !IsOverlappingExisting(placed, r)
    ensures r.width == d.width && r.height == d.height
  {
  }

  /** Of two free probes, the later one in search order is not first. */
  lemma FirstFreeProbeUnique(s: Search, placed: seq<Rect>, d: Dims, r1: nat, t1: nat, r2: nat, t2: nat)
    requires FirstFreeProbe(s, placed, d, r1, t1) && FirstFreeProbe(s, placed, d, r2, t2)
    ensures r1 == r2 && t1 == t2
  {
    if r1 < r2 {
      assert false;
    } else if r2 < r1 {
      assert false;
    } else if t1 < t2 {
      assert false;
    } else if t2 < t1 {
      assert false;
    }
  }

  /** The search is deterministic: one placement for given placed rectangles and size. */
  lemma PlacementUnique(s: Search, placed: seq<Rect>, d: Dims, a: Rect, b: Rect)
    requires IsPlacement(s, placed, d, a) && IsPlacement(s, placed, d, b)
    ensures a == b
  {
    if IsOverlappingExisting(placed, Centred(s, d)) {
      var r1: nat, t1: nat :| FirstFreeProbe(s, placed, d, r1, t1) && a == Probe(s, d, r1, t1);
      var r2: nat, t2: nat :| FirstFreeProbe(s, placed, d, r2, t2) && b == Probe(s, d, r2, t2);
      FirstFreeProbeUnique(s, placed, d, r1, t1, r2, t2);
    }
  }

  /** Every rectangle sits where the search puts it, given the ones placed before it. */
  ghost predicate PlacedInOrder(s: Search, dims: seq<Dims>, positions: seq<Rect>)
  {
    && |positions| <= |dims|
    && forall k :: 0 <= k < |positions| ==> IsPlacement(s, positions[..k], dims[k], positions[k])
  }

  /**
   * A layout pass is reproducible: two passes over the same sizes in the
   * same order, with the same parameters, put every word in the same place.
   */
  lemma {:induction false} LayoutUnique(s: Search, dims: seq<Dims>, p: seq<Rect>, q: seq<Rect>)
    requires PlacedInOrder(s, dims, p) && PlacedInOrder(s, dims, q) && |p| == |q|
    ensures p == q
  {
    if |p| > 0 {
      var n := |p| - 1;
      PlacedInOrderPrefix(s, dims, p, n);
      PlacedInOrderPrefix(s, dims, q, n);
      LayoutUnique(s, dims, p[..n], q[..n]);
      LastUnique(s, dims, p, q);
      SameInitAndLast(p, q);
    }
  }

  /** Two in-order layouts that agree before their last rectangle agree on it. */
  lemma LastUnique(s: Search, dims: seq<Dims>, p: seq<Rect>, q: seq<Rect>)
    requires PlacedInOrder(s, dims, p) && PlacedInOrder(s, dims, q)
    requires |p| == |q| > 0 && p[..|p| - 1] == q[..|q| - 1]
    ensures p[|p| - 1] == q[|q| - 1]
  {
    var n := |p| - 1;
    assert IsPlacement(s, p[..n], dims[n], p[n]);
    assert IsPlacement(s, q[..n], dims[n], q[n]);
    PlacementUnique(s, p[..n], dims[n], p[n], q[n]);
  }

  lemma SameInitAndLast<T>(p: seq<T>, q: seq<T>)
    requires |p| == |q| > 0 && p[..|p| - 1] == q[..|q| - 1] && p[|p| - 1] == q[|q| - 1]
    ensures p == q
  {
    assert p == p[..|p| - 1] + [p[|p| - 1]];
    assert q == q[..|q| - 1] + [q[|q| - 1]];
  }

  /** Every prefix of an in-order layout is one. */
  lemma PlacedInOrderPrefix(s: Search, dims: seq<Dims>, p: seq<Rect>, n: nat)
    requires PlacedInOrder(s, dims, p) && n <= |p|
    ensures PlacedInOrder(s, dims, p[..n])
  {
    forall k | 0 <= k < n ensures IsPlacement(s, p[..n][..k], dims[k], p[..n][k]) {
      assert p[..n][..k] == p[..k];
      assert p[..n][k] == p[k];
    }
  }

  /** Rectangles placed in order never overlap each other. */
  lemma {:induction false} PlacedInOrderDisjoint(s: Search, dims: seq<Dims>, positions: seq<Rect>)
    requires PlacedInOrder(s, dims, positions)
    ensures Disjoint(positions)
  {
    forall i, j | 0 <= i < j < |positions| ensures !Overlaps(positions[i], positions[j]) {
      PlacementFree(s, positions[..j], dims[j], positions[j]);
      assert positions[..j][i] == positions[i];
    }
  }

  /** Placing the next word where the search puts it extends the layout. */
  lemma PlacedInOrderExtend(s: Search, dims: seq<Dims>, positions: seq<Rect>, r: Rect)
    requires PlacedInOrder(s, dims, positions) && |positions| < |dims|
    requires IsPlacement(s, positions, dims[|positions|], r)
    ensures PlacedInOrder(s, dims, positions + [r])
  {
    var p := positions + [r];
    forall k | 0 <= k < |p| ensures IsPlacement(s, p[..k], dims[k], p[k]) {
      assert p[..k] == positions[..k] || k == |positions|;
      if k == |positions| {
        assert p[..k] == positions;
      }
    }
  }

  /** No word of the layout stopped the search: each was placed within `budget` probes. */
  ghost predicate Unexhausted(s: Search, dims: seq<Dims>, positions: seq<Rect>, budget: nat)
  {
    if |positions| == 0 then true
    else
      var n := |positions| - 1;
      && Unexhausted(s, dims, positions[..n], budget)
      && (n < |dims| ==> !Exhausted(s, positions[..n], dims[n], budget))
  }

  /** The word at index `k` of an unexhausted layout was placed within the budget. */
  lemma {:induction false} UnexhaustedAt(s: Search, dims: seq<Dims>, positions: seq<Rect>, budget: nat, k: nat)
    requires Unexhausted(s, dims, positions, budget) && k < |positions| && k < |dims|
    ensures !Exhausted(s, positions[..k], dims[k], budget)
  {
    var n := |positions| - 1;
    if k < n {
      UnexhaustedAt(s, dims, positions[..n], budget, k);
      assert positions[..n][..k] == positions[..k];
    }
  }

  /**
   * A layout pass with a budget of `budget` probes per word: the words are
   * placed in order, each within the budget, and when not all of them are,
   * the search for the next one used every probe.
   */
  ghost predicate LaidOutWithin(s: Search, dims: seq<Dims>, positions: seq<Rect>, budget: nat)
  {
    && PlacedInOrder(s, dims, positions)
    && Unexhausted(s, dims, positions, budget)
    && (|positions| < |dims| ==> Exhausted(s, positions, dims[|positions|], budget))
  }

  /** Placing the next word within the budget keeps the layout unexhausted. */
  lemma UnexhaustedExtend(s: Search, dims: seq<Dims>, positions: seq<Rect>, r: Rect, budget: nat)
    requires Unexhausted(s, dims, positions, budget) && |positions| < |dims|
    requires !Exhausted(s, positions, dims[|positions|], budget)
    ensures Unexhausted(s, dims, positions + [r], budget)
  {
    assert (positions + [r])[..|positions|] == positions;
  }

  /**
   * A layout pass with a budget is reproducible, partial ones included: two
   * passes over the same sizes with the same parameters stop at the same
   * word and put every word before it in the same place.
   */
  lemma LaidOutWithinUnique(s: Search, dims: seq<Dims>, p: seq<Rect>, q: seq<Rect>, budget: nat)
    requires LaidOutWithin(s, dims, p, budget) && LaidOutWithin(s, dims, q, budget)
    ensures p == q
  {
    if |p| < |q| {
      ShorterLayoutAgrees(s, dims, p, q, budget);
    } else if |q| < |p| {
      ShorterLayoutAgrees(s, dims, q, p, budget);
    }
    LayoutUnique(s, dims, p, q);
  }

  /** A layout that stopped cannot be shorter than one that went on from the same words. */
  lemma ShorterLayoutAgrees(s: Search, dims: seq<Dims>, p: seq<Rect>, q: seq<Rect>, budget: nat)
    requires LaidOutWithin(s, dims, p, budget) && LaidOutWithin(s, dims, q, budget)
    ensures |q| <= |p|
  {
    if |p| < |q| {
      var n := |p|;
      PlacedInOrderPrefix(s, dims, q, n);
      LayoutUnique(s, dims, p, q[..n]);
      UnexhaustedAt(s, dims, q, budget, n);
      assert false;  // q placed word n within the budget, yet p's search for it was exhausted
    }
  }
}
