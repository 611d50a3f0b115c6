/**
  Segment-intersection geometry of the light-cycle game: the orientation test,
  the closed-segment intersection test built on it, and the polyline collision
  test that runs it along every edge of a trail. Coordinates are exact reals.
 */
module Geometry {

  datatype Point = Point(x: real, y: real)

  /** An ordered pair of points: a trail edge, or a player's leading edge. */
  datatype Segment = Segment(a: Point, b: Point)

  function Min(a: real, b: real): real { if a <= b then a else b }
  function Max(a: real, b: real): real { if a <= b then b else a }

  /** `b` lies in the closed interval spanned by `a` and `c`, in either order. */
  predicate Between(a: real, b: real, c: real) {
    (a <= b && b <= c) || (c <= b && b <= a)
  }

  /** Does `q` lie in the closed axis-aligned bounding box of `p` and `r`? */
  predicate OnSegment(p: Point, q: Point, r: Point)
    ensures OnSegment(p, q, r) <==> Between(p.x, q.x, r.x) && Between(p.y, q.y, r.y)
  {
    q.x <= Max(p.x, r.x) && q.x >= Min(p.x, r.x) &&
    q.y <= Max(p.y, r.y) && q.y >= Min(p.y, r.y)
  }

  lemma OnSegmentSymmetric(p: Point, q: Point, r: Point)
    ensures OnSegment(p, q, r) <==> OnSegment(r, q, p)
  {
  }

  lemma OnSegmentEndpoints(p: Point, r: Point)
    ensures OnSegment(p, p, r) && OnSegment(p, r, r)
  {
  }

  /** The cross product of q - p and r - q, the quantity whose sign orientation reports. */
  function Cross(p: Point, q: Point, r: Point): real {
    (q.y - p.y) * (r.x - q.x) - (q.x - p.x) * (r.y - q.y)
  }

  /** 0: collinear, 1: clockwise (positive cross), 2: counterclockwise (negative cross). */
  function Orientation(p: Point, q: Point, r: Point): (o: nat)
    ensures o <= 2
  {
    var val := Cross(p, q, r);
    if val == 0.0 then 0 else if val > 0.0 then 1 else 2
  }

  /** Exchanges clockwise and counterclockwise, keeps collinear. */
  function Mirror(o: nat): nat {
    if o == 1 then 2 else if o == 2 then 1 else o
  }

  /** The point p + t * (q - p) of the line through p and q. */
  function Along(p: Point, q: Point, t: real): Point {
    Point(p.x + t * (q.x - p.x), p.y + t * (q.y - p.y))
  }

  /** Reading a triple backwards swaps the two turning directions. */
  lemma OrientationReversed(p: Point, q: Point, r: Point)
    ensures Orientation(r, q, p) == Mirror(Orientation(p, q, r))
  {
    assert Cross(r, q, p) == -Cross(p, q, r);
  }

  /** Rotating a triple keeps its orientation. */
  lemma OrientationRotated(p: Point, q: Point, r: Point)
    ensures Orientation(q, r, p) == Orientation(p, q, r)
  {
    assert Cross(q, r, p) == Cross(p, q, r);
  }

  /** Orientation 0 means exactly collinear: r lies on the line through p and q. */
  lemma OrientationCollinear(p: Point, q: Point, r: Point)
    requires p != q
    ensures Orientation(p, q, r) == 0 <==> exists t :: r == Along(p, q, t)
  {
    if Orientation(p, q, r) == 0 {
      if q.x != p.x {
        var t := (r.x - p.x) / (q.x - p.x);
        CollinearByX(p, q, r, t);
      } else {
        var t := (r.y - p.y) / (q.y - p.y);
        CollinearByY(p, q, r, t);
      }
    } else {
      forall t | r == Along(p, q, t) ensures false {
        AlongIsCollinear(p, q, t);
      }
    }
  }

  lemma AlongIsCollinear(p: Point, q: Point, t: real)
    ensures Cross(p, q, Along(p, q, t)) == 0.0
  {
    var dx, dy := q.x - p.x, q.y - p.y;
    assert Along(p, q, t).x - q.x == (t - 1.0) * dx;
    assert Along(p, q, t).y - q.y == (t - 1.0) * dy;
    assert dy * ((t - 1.0) * dx) == dx * ((t - 1.0) * dy);
  }

  lemma CollinearByX(p: Point, q: Point, r: Point, t: real)
    requires q.x != p.x && Cross(p, q, r) == 0.0 && t == (r.x - p.x) / (q.x - p.x)
    ensures r == Along(p, q, t)
  {
    var dx, dy := q.x - p.x, q.y - p.y;
    assert t * dx == r.x - p.x;
    assert dx * (r.y - q.y) == dy * (r.x - q.x);
    assert dx * (r.y - p.y - t * dy) == 0.0 by {
      calc {
        dx * (r.y - p.y - t * dy);
        dx * (r.y - q.y) + dx * dy - (t * dx) * dy;
        dy * (r.x - q.x) + dx * dy - (r.x - p.x) * dy;
        0.0;
      }
    }
    MulSign(dx, r.y - p.y - t * dy);
  }

  lemma CollinearByY(p: Point, q: Point, r: Point, t: real)
    requires q.x == p.x && q.y != p.y && Cross(p, q, r) == 0.0 && t == (r.y - p.y) / (q.y - p.y)
    ensures r == Along(p, q, t)
  {
    var dy := q.y - p.y;
    assert t * dy == r.y - p.y;
    assert dy * (r.x - q.x) == 0.0;
    MulSign(dy, r.x - q.x);
  }

  /** The closed-segment intersection test: general case plus four collinear cases. */
  predicate Intersect(s1: Segment, s2: Segment) {
    var o1 := Orientation(s1.a, s1.b, s2.a);
    var o2 := Orientation(s1.a, s1.b, s2.b);
    var o3 := Orientation(s2.a, s2.b, s1.a);
    var o4 := Orientation(s2.a, s2.b, s1.b);
    (o1 != o2 && o3 != o4) ||
    (o1 == 0 && OnSegment(s1.a, s2.a, s1.b)) ||
    (o2 == 0 && OnSegment(s1.a, s2.b, s1.b)) ||
    (o3 == 0 && OnSegment(s2.a, s1.a, s2.b)) ||
    (o4 == 0 && OnSegment(s2.a, s1.b, s2.b))
  }

  lemma IntersectSymmetric(s1: Segment, s2: Segment)
    ensures Intersect(s1, s2) <==> Intersect(s2, s1)
  {
  }

  function Reversed(s: Segment): Segment { Segment(s.b, s.a) }

  /** The test does not depend on the direction in which either segment is given. */
  lemma IntersectReversed(s1: Segment, s2: Segment)
    ensures Intersect(Reversed(s1), s2) <==> Intersect(s1, s2)
    ensures Intersect(s1, Reversed(s2)) <==> Intersect(s1, s2)
  {
    var A, B, C, D := s1.a, s1.b, s2.a, s2.b;
    // Orientation(B, A, X) == Mirror(Orientation(A, B, X)), via a rotation and a reversal
    forall X: Point ensures Orientation(B, A, X) == Mirror(Orientation(A, B, X))
                      && Orientation(D, C, X) == Mirror(Orientation(C, D, X)) {
      OrientationRotated(B, A, X);
      OrientationReversed(A, X, B);
      OrientationRotated(A, B, X);
      OrientationRotated(D, C, X);
      OrientationReversed(C, X, D);
      OrientationRotated(C, D, X);
    }
    OnSegmentSymmetric(A, C, B);
    OnSegmentSymmetric(A, D, B);
    OnSegmentSymmetric(C, A, D);
    OnSegmentSymmetric(C, B, D);
  }

  /** Closed-segment semantics: segments sharing an endpoint always intersect. */
  lemma IntersectSharedEndpoint(s1: Segment, s2: Segment)
    requires s1.a == s2.a || s1.a == s2.b || s1.b == s2.a || s1.b == s2.b
    ensures Intersect(s1, s2)
  {
    var A, B := s1.a, s1.b;
    assert Cross(A, B, A) == 0.0;
    assert Cross(A, B, B) == 0.0;
  }

  /** The general case: each segment's endpoints lie strictly on opposite sides of the other's line. */
  lemma IntersectProperCrossing(s1: Segment, s2: Segment)
    requires Cross(s1.a, s1.b, s2.a) * Cross(s1.a, s1.b, s2.b) < 0.0
    requires Cross(s2.a, s2.b, s1.a) * Cross(s2.a, s2.b, s1.b) < 0.0
    ensures Intersect(s1, s2)
  {
    MulSign(Cross(s1.a, s1.b, s2.a), Cross(s1.a, s1.b, s2.b));
    MulSign(Cross(s2.a, s2.b, s1.a), Cross(s2.a, s2.b, s1.b));
  }

  /** Horizontal or vertical (a single point is both): every edge a light-cycle draws is one. */
  predicate AxisAligned(s: Segment) {
    s.a.x == s.b.x || s.a.y == s.b.y
  }

  /** q lies in the closed bounding box of s; for an axis-aligned s, that box is s itself. */
  predicate Covers(s: Segment, q: Point) {
    OnSegment(s.a, q, s.b)
  }

  /** The closed intervals [a1, a2] and [b1, b2] (either end first) share a value. */
  predicate SpansMeet(a1: real, a2: real, b1: real, b2: real) {
    Min(a1, a2) <= Max(b1, b2) && Min(b1, b2) <= Max(a1, a2)
  }

  predicate BoxesOverlap(s1: Segment, s2: Segment) {
    SpansMeet(s1.a.x, s1.b.x, s2.a.x, s2.b.x) && SpansMeet(s1.a.y, s1.b.y, s2.a.y, s2.b.y)
  }

  /** An axis-aligned segment covers exactly the points p + t * (q - p), 0 <= t <= 1. */
  lemma AxisAlignedCovers(s: Segment, q: Point)
    requires AxisAligned(s)
    ensures Covers(s, q) <==> exists t :: 0.0 <= t <= 1.0 && q == Along(s.a, s.b, t)
  {
    if Covers(s, q) {
      var t := CoveredParameter(s, q);
    } else {
      forall t | 0.0 <= t <= 1.0 && q == Along(s.a, s.b, t) ensures false {
        AlongBetween(s.a.x, s.b.x, t);
        AlongBetween(s.a.y, s.b.y, t);
      }
    }
  }

  /** The parameter of a covered point, read off the coordinate along which s runs. */
  lemma CoveredParameter(s: Segment, q: Point) returns (t: real)
    requires AxisAligned(s) && Covers(s, q)
    ensures 0.0 <= t <= 1.0 && q == Along(s.a, s.b, t)
  {
    var A, B := s.a, s.b;
    if A.x != B.x {
      t := (q.x - A.x) / (B.x - A.x);
      assert t * (B.x - A.x) == q.x - A.x;
      UnitParameter(A.x, q.x, B.x, t);
      assert q.y == A.y + t * (B.y - A.y);
    } else if A.y != B.y {
      t := (q.y - A.y) / (B.y - A.y);
      assert t * (B.y - A.y) == q.y - A.y;
      UnitParameter(A.y, q.y, B.y, t);
      assert q.x == A.x + t * (B.x - A.x);
    } else {
      t := 0.0;
    }
  }

  lemma UnitParameter(a: real, b: real, c: real, t: real)
    requires a != c && Between(a, b, c) && t * (c - a) == b - a
    ensures 0.0 <= t <= 1.0
  {
    if t < 0.0 || t > 1.0 {
      if c > a {
        if t < 0.0 { MulSign(t, c - a); } else { MulSign(t - 1.0, c - a); }
      } else {
        if t < 0.0 { MulSign(t, c - a); } else { MulSign(t - 1.0, c - a); }
      }
    }
  }

  lemma AlongBetween(a: real, c: real, t: real)
    requires 0.0 <= t <= 1.0
    ensures Between(a, a + t * (c - a), c)
  {
    if c >= a {
      MulSign(t, c - a);
      MulSign(1.0 - t, c - a);
    } else {
      MulSign(t, a - c);
      MulSign(1.0 - t, a - c);
    }
  }

  /** Bounding boxes overlap exactly when some point lies in both. */
  lemma BoxesOverlapCommonPoint(s1: Segment, s2: Segment)
    ensures BoxesOverlap(s1, s2) <==> exists q :: Covers(s1, q) && Covers(s2, q)
  {
    if BoxesOverlap(s1, s2) {
      var q := Point(Max(Min(s1.a.x, s1.b.x), Min(s2.a.x, s2.b.x)),
                     Max(Min(s1.a.y, s1.b.y), Min(s2.a.y, s2.b.y)));
      assert Covers(s1, q) && Covers(s2, q);
    }
  }

  /** On axis-aligned segments the orientation test decides exactly "the two share a point". */
  lemma IntersectAxisAligned(s1: Segment, s2: Segment)
    requires AxisAligned(s1) && AxisAligned(s2)
    ensures Intersect(s1, s2) <==> exists q :: Covers(s1, q) && Covers(s2, q)
  {
    BoxesOverlapCommonPoint(s1, s2);
    if s1.a.y == s1.b.y && s2.a.y == s2.b.y {
      IntersectBothHorizontal(s1, s2);
    } else if s1.a.y == s1.b.y {
      IntersectCrossed(s1, s2);
    } else if s2.a.y == s2.b.y {
      IntersectCrossed(s2, s1);
      IntersectSymmetric(s1, s2);
    } else {
      IntersectBothHorizontal(Transposed(s1), Transposed(s2));
      IntersectTransposed(s1, s2);
    }
  }

  function Flip(p: Point): Point { Point(p.y, p.x) }

  /** The mirror image of s in the diagonal x == y. */
  function Transposed(s: Segment): Segment { Segment(Flip(s.a), Flip(s.b)) }

  lemma IntersectTransposed(s1: Segment, s2: Segment)
    ensures Intersect(Transposed(s1), Transposed(s2)) <==> Intersect(s1, s2)
  {
    var A, B, C, D := s1.a, s1.b, s2.a, s2.b;
    OrientationFlipped(A, B, C);
    OrientationFlipped(A, B, D);
    OrientationFlipped(C, D, A);
    OrientationFlipped(C, D, B);
  }

  /** Mirroring in the diagonal turns clockwise into counterclockwise. */
  lemma OrientationFlipped(p: Point, q: Point, r: Point)
    ensures Orientation(Flip(p), Flip(q), Flip(r)) == Mirror(Orientation(p, q, r))
  {
    assert Cross(Flip(p), Flip(q), Flip(r)) == -Cross(p, q, r);
  }

  lemma IntersectBothHorizontal(s1: Segment, s2: Segment)
    requires s1.a.y == s1.b.y && s2.a.y == s2.b.y
    ensures Intersect(s1, s2) <==> BoxesOverlap(s1, s2)
  {
    var A, B, C, D := s1.a, s1.b, s2.a, s2.b;
    MulSign(B.x - A.x, C.y - B.y);
    MulSign(B.x - A.x, D.y - B.y);
    MulSign(D.x - C.x, A.y - D.y);
    MulSign(D.x - C.x, B.y - D.y);
    assert Cross(A, B, C) == -(B.x - A.x) * (C.y - B.y);
    assert Cross(A, B, D) == -(B.x - A.x) * (D.y - B.y);
    assert Cross(C, D, A) == -(D.x - C.x) * (A.y - D.y);
    assert Cross(C, D, B) == -(D.x - C.x) * (B.y - D.y);
  }

  lemma IntersectCrossed(s1: Segment, s2: Segment)
    requires s1.a.y == s1.b.y && s2.a.x == s2.b.x
    ensures Intersect(s1, s2) <==> BoxesOverlap(s1, s2)
  {
    var A, B, C, D := s1.a, s1.b, s2.a, s2.b;
    var h, v := A.y, C.x;
    var alpha, gamma := B.x - A.x, D.y - C.y;
    assert Cross(A, B, C) == -(alpha * (C.y - h));
    assert Cross(A, B, D) == -(alpha * (D.y - h));
    assert Cross(C, D, A) == gamma * (A.x - v);
    assert Cross(C, D, B) == gamma * (B.x - v);
    MulSign(alpha, C.y - h);
    MulSign(alpha, D.y - h);
    MulSign(gamma, A.x - v);
    MulSign(gamma, B.x - v);
    if alpha == 0.0 {
      // s1 is the single point A
      assert Intersect(s1, s2) <==> (A.x == v && Between(C.y, h, D.y));
    } else if gamma == 0.0 {
      // s2 is the single point C
      assert Intersect(s1, s2) <==> (C.y == h && Between(A.x, v, B.x));
    } else {
      var yMeet := Between(C.y, h, D.y);
      var xMeet := Between(A.x, v, B.x);
      assert Orientation(A, B, C) != Orientation(A, B, D) <==> yMeet;
      assert Orientation(C, D, A) != Orientation(C, D, B) <==> xMeet;
    }
  }

  /** The two closed segments share a point (for axis-aligned segments, a real geometric contact). */
  ghost predicate Touches(s1: Segment, s2: Segment) {
    exists q :: Covers(s1, q) && Covers(s2, q)
  }

  /** Edge i of a polyline runs from its point i to its point i + 1. */
  function Edge(path: seq<Point>, i: nat): Segment
    requires i + 1 < |path|
  {
    Segment(path[i], path[i + 1])
  }

  predicate AxisAlignedPath(path: seq<Point>) {
    forall i :: 0 <= i < |path| - 1 ==> AxisAligned(Edge(path, i))
  }

  /** Tests seg against every consecutive edge of path, front to back, stopping at the first hit. */
  function Collision(seg: Segment, path: seq<Point>): (hit: bool)
    ensures hit <==> exists i {:trigger Intersect(seg, Edge(path, i))} :: 0 <= i < |path| - 1 && Intersect(seg, Edge(path, i))
    decreases |path|
  {
    if |path| < 2 then false
    else if Intersect(seg, Edge(path, 0)) then true
    else
      var rest := Collision(seg, path[1..]);
      assert forall i :: 0 <= i < |path| - 2 ==> Edge(path[1..], i) == Edge(path, i + 1);
      assert !rest ==> forall i :: 1 <= i < |path| - 1 ==> Edge(path, i) == Edge(path[1..], i - 1);
      rest
  }

  /** A hit on a prefix of a trail is a hit on the whole trail. */
  lemma CollisionPrefix(seg: Segment, path: seq<Point>, k: nat)
    requires k <= |path| && Collision(seg, path[..k])
    ensures Collision(seg, path)
  {
    var i :| 0 <= i < k - 1 && Intersect(seg, Edge(path[..k], i));
    assert Edge(path[..k], i) == Edge(path, i);
  }

  /** On an axis-aligned trail, a collision is exactly a contact with one of its edges. */
  lemma CollisionAxisAligned(seg: Segment, path: seq<Point>)
    requires AxisAligned(seg) && AxisAlignedPath(path)
    ensures Collision(seg, path) <==> exists i :: 0 <= i < |path| - 1 && Touches(seg, Edge(path, i))
  {
    forall i | 0 <= i < |path| - 1
      ensures Intersect(seg, Edge(path, i)) <==> Touches(seg, Edge(path, i))
    {
      IntersectAxisAligned(seg, Edge(path, i));
    }
  }

  lemma MulSign(a: real, b: real)
    ensures a * b > 0.0 <==> (a > 0.0 && b > 0.0) || (a < 0.0 && b < 0.0)
    ensures a * b < 0.0 <==> (a > 0.0 && b < 0.0) || (a < 0.0 && b > 0.0)
    ensures a * b == 0.0 <==> a == 0.0 || b == 0.0
  {
    if a > 0.0 && b > 0.0 { assert a * b > 0.0; }
    if a < 0.0 && b < 0.0 { assert (-a) * (-b) > 0.0; }
    if a > 0.0 && b < 0.0 { assert a * (-b) > 0.0; }
    if a < 0.0 && b > 0.0 { assert (-a) * b > 0.0; }
  }
}
