/**
 * Axis-aligned rectangles of placed words and the overlap test
 * `_isOverlappingExisting`.
 */
module Geometry {
  /** A placed word: top-left corner and measured size, in pixels. */
  datatype Rect = Rect(x: real, y: real, width: real, height: real)

  /**
   * The test `_isOverlappingExisting` applies to one stored rectangle `a`
   * and the candidate `b`: they overlap unless strictly separated on one
   * axis, so rectangles that only touch overlap.
   */
  predicate Overlaps(a: Rect, b: Rect): (r: bool)
    ensures a == b && a.width >= 0.0 && a.height >= 0.0 ==> r
  {
    !(a.x > b.x + b.width ||
      a.x + a.width < b.x ||
      a.y > b.y + b.height ||
      a.y + a.height < b.y)
  }

  /** `_isOverlappingExisting(x, y, w, h)` against the stored `placed`. */
  function IsOverlappingExisting(placed: seq<Rect>, candidate: Rect): (r: bool)
    ensures placed == [] ==> !r
    ensures r <==> exists i :: 0 <= i < |placed| && Overlaps(placed[i], candidate)
  {
    if placed == [] then false
    else
      assert forall i :: 0 < i < |placed| ==> placed[i] == placed[1..][i - 1];
      Overlaps(placed[0], candidate) || IsOverlappingExisting(placed[1..], candidate)
  }

  /** The stored rectangles overlap pairwise nowhere. */
  predicate Disjoint(placed: seq<Rect>)
  {
    forall i, j :: 0 <= i < j < |placed| ==> !Overlaps(placed[i], placed[j])
  }

  /** The test does not depend on which rectangle is the stored one. */
  lemma OverlapsSymmetric(a: Rect, b: Rect)
    ensures Overlaps(a, b) <==> Overlaps(b, a)
  {
  }

  predicate Contains(r: Rect, px: real, py: real)
  {
    r.x <= px <= r.x + r.width && r.y <= py <= r.y + r.height
  }

  /**
   * For rectangles of non-negative size the test means exactly that the
   * closed rectangles share a point.
   */
  lemma OverlapsIffSharedPoint(a: Rect, b: Rect)
    requires a.width >= 0.0 && a.height >= 0.0 && b.width >= 0.0 && b.height >= 0.0
    ensures Overlaps(a, b) <==> exists px, py :: Contains(a, px, py) && Contains(b, px, py)
  {
    if Overlaps(a, b) {
      var px := if a.x < b.x then b.x else a.x;
      var py := if a.y < b.y then b.y else a.y;
      assert Contains(a, px, py) && Contains(b, px, py);
    }
  }

  /** Two rectangles that only share an edge count as overlapping. */
  lemma TouchingOverlaps()
    ensures Overlaps(Rect(0.0, 0.0, 10.0, 10.0), Rect(10.0, 0.0, 10.0, 10.0))
  {
  }

  /** Appending a rectangle that overlaps no stored one keeps them disjoint. */
  lemma DisjointAppend(placed: seq<Rect>, r: Rect)
    requires Disjoint(placed) && !IsOverlappingExisting(placed, r)
    ensures Disjoint(placed + [r])
  {
    var s := placed + [r];
    forall i, j | 0 <= i < j < |s| ensures !Overlaps(s[i], s[j]) {
      if j == |placed| {
        assert s[i] == placed[i] && s[j] == r;
      } else {
        assert s[i] == placed[i] && s[j] == placed[j];
      }
    }
  }
}
