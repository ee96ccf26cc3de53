/**
 * Contours as OpenCV's contour tracer hands them over, and their area as
 * `cv2.contourArea` computes it: the absolute value of the shoelace sum over
 * the closed polygon, halved. Everything is kept in integers by working with
 * twice the signed area.
 */
module Geometry {

  datatype Point = Point(x: int, y: int)

  /** An ordered boundary; the last point is implicitly joined to the first. */
  type Contour = seq<Point>

  function Abs(n: int): nat {
    if n < 0 then -n else n
  }

  /** The shoelace term of the edge from `p` to `q`. */
  function Cross(p: Point, q: Point): int {
    p.x * q.y - q.x * p.y
  }

  /** The shoelace terms of the open chain c[0] -> c[1] -> ... -> c[|c|-1]. */
  function ChainSum(c: Contour): int {
    if |c| < 2 then 0 else Cross(c[0], c[1]) + ChainSum(c[1..])
  }

  /** Twice the signed area of the closed polygon: the chain plus the closing edge. */
  function TwiceSignedArea(c: Contour): int {
    if c == [] then 0 else ChainSum(c) + Cross(c[|c| - 1], c[0])
  }

  /** `cv2.contourArea(c)`: the unsigned polygon area. */
  function ContourArea(c: Contour): real {
    Abs(TwiceSignedArea(c)) as real / 2.0
  }

  /** The filter of the serialiser: a contour is drawn unless its area is below 10. */
  predicate IsKept(c: Contour) {
    Abs(TwiceSignedArea(c)) >= 20
  }

  /** The integer test agrees with the source's comparison `contourArea(c) < 10`. */
  lemma KeptIffAreaAtLeastTen(c: Contour)
    ensures IsKept(c) <==> !(ContourArea(c) < 10.0)
  {
  }

  /** Points and segments enclose nothing, so they are always dropped. */
  lemma FewPointsAreDropped(c: Contour)
    requires |c| < 3
    ensures TwiceSignedArea(c) == 0 && ContourArea(c) == 0.0 && !IsKept(c)
  {
    if |c| == 2 {
      assert ChainSum(c) == Cross(c[0], c[1]);
    }
  }

  /** Appending a point to an open chain adds the shoelace term of the new edge. */
  lemma {:induction false} ChainSumSnoc(c: Contour, p: Point)
    requires |c| >= 1
    ensures ChainSum(c + [p]) == ChainSum(c) + Cross(c[|c| - 1], p)
    decreases |c|
  {
    if |c| > 1 {
      assert (c + [p])[1..] == c[1..] + [p];
      ChainSumSnoc(c[1..], p);
    }
  }

  /** The closed polygon read from its second point on. */
  function Rotate(c: Contour): (r: Contour)
    requires |c| >= 1
    ensures |r| == |c| && r[|r| - 1] == c[0]
    ensures forall i :: 0 <= i < |c| - 1 ==> r[i] == c[i + 1]
  {
    c[1..] + [c[0]]
  }

  /** The area does not depend on the point the tracer starts the boundary at. */
  lemma RotationKeepsArea(c: Contour)
    requires |c| >= 1
    ensures TwiceSignedArea(Rotate(c)) == TwiceSignedArea(c)
    ensures IsKept(Rotate(c)) == IsKept(c)
  {
    if |c| > 1 {
      ChainSumSnoc(c[1..], c[0]);
    }
  }

  /** The same polygon traversed the other way round. */
  function Reverse(c: Contour): (r: Contour)
    ensures |r| == |c|
    ensures forall i :: 0 <= i < |c| ==> r[i] == c[|c| - 1 - i]
  {
    seq(|c|, i requires 0 <= i < |c| => c[|c| - 1 - i])
  }

  lemma {:induction false} ReverseChainSum(c: Contour)
    ensures ChainSum(Reverse(c)) == -ChainSum(c)
    decreases |c|
  {
    if |c| >= 2 {
      var tail := Reverse(c[1..]);
      assert Reverse(c) == tail + [c[0]];
      ReverseChainSum(c[1..]);
      ChainSumSnoc(tail, c[0]);
      assert tail[|tail| - 1] == c[1];
    }
  }

  /**
   * Reversing the winding order negates the signed area, so the unsigned area
   * and the filter do not depend on the orientation of the boundary.
   */
  lemma ReversalNegatesArea(c: Contour)
    ensures TwiceSignedArea(Reverse(c)) == -TwiceSignedArea(c)
    ensures ContourArea(Reverse(c)) == ContourArea(c)
    ensures IsKept(Reverse(c)) == IsKept(c)
  {
    ReverseChainSum(c);
  }

  function Translate(c: Contour, dx: int, dy: int): (r: Contour)
    ensures |r| == |c|
    ensures forall i :: 0 <= i < |c| ==> r[i] == Point(c[i].x + dx, c[i].y + dy)
  {
    seq(|c|, i requires 0 <= i < |c| => Point(c[i].x + dx, c[i].y + dy))
  }

  /** The shoelace term of a shifted edge, split into the original term and two linear ones. */
  lemma CrossOfShifted(p: Point, q: Point, dx: int, dy: int)
    ensures Cross(Point(p.x + dx, p.y + dy), Point(q.x + dx, q.y + dy))
         == Cross(p, q) + (dx * q.y - q.x * dy) - (dx * p.y - p.x * dy)
  {
    calc {
      Cross(Point(p.x + dx, p.y + dy), Point(q.x + dx, q.y + dy));
      (p.x + dx) * (q.y + dy) - (q.x + dx) * (p.y + dy);
      p.x * q.y + p.x * dy + dx * q.y + dx * dy - (q.x * p.y + q.x * dy + dx * p.y + dx * dy);
      Cross(p, q) + (dx * q.y - q.x * dy) - (dx * p.y - p.x * dy);
    }
  }

  /** The linear part CrossOfShifted splits off for one point. */
  function Moment(p: Point, dx: int, dy: int): int {
    dx * p.y - p.x * dy
  }

  /** Shifting an open chain adds a telescoping sum: last point's moment minus the first's. */
  lemma {:induction false} ChainSumOfTranslate(c: Contour, dx: int, dy: int)
    requires |c| >= 1
    ensures ChainSum(Translate(c, dx, dy))
         == ChainSum(c) + Moment(c[|c| - 1], dx, dy) - Moment(c[0], dx, dy)
    decreases |c|
  {
    if |c| >= 2 {
      var t := Translate(c, dx, dy);
      assert t[1..] == Translate(c[1..], dx, dy);
      ChainSumOfTranslate(c[1..], dx, dy);
      CrossOfShifted(c[0], c[1], dx, dy);
    }
  }

  /** The area does not depend on where in the image the boundary lies. */
  lemma TranslationKeepsArea(c: Contour, dx: int, dy: int)
    ensures TwiceSignedArea(Translate(c, dx, dy)) == TwiceSignedArea(c)
    ensures IsKept(Translate(c, dx, dy)) == IsKept(c)
  {
    if |c| >= 1 {
      ChainSumOfTranslate(c, dx, dy);
      CrossOfShifted(c[|c| - 1], c[0], dx, dy);
    }
  }
}
