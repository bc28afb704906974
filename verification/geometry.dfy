/** The pure geometry of `utils/geometry.ts`: distances, circle and polygon
    containment, point-to-segment distance and endpoint trimming. Distances
    are compared squared, so no square root is taken except where the
    program's result is itself a square root (`AdjustedPointAlongVector`). */
module Geometry {
  import opened CourseModel
  import opened Numerics

  function DistanceSquared(p: Point, q: Point): (r: real)
    ensures r >= 0.0
    ensures r == 0.0 <==> p == q
  {
    SquareZero(p.x - q.x);
    SquareZero(p.y - q.y);
    Square(p.x - q.x) + Square(p.y - q.y)
  }

  lemma SquareZero(a: real)
    ensures a == 0.0 ==> Square(a) == 0.0
    ensures a != 0.0 ==> Square(a) > 0.0
  {
    if a != 0.0 {
      var b := if a > 0.0 then a else -a;
      MulStrict(0.0, b, b);
      calc {
        Square(a);
        a * a;
        b * b;
      >
        0.0 * b;
        0.0;
      }
    }
  }

  /** `distance(p1, p2)` of the source. */
  function Distance(m: Transcendentals, p: Point, q: Point): real {
    m.sqrt(DistanceSquared(p, q))
  }

  /** `isPointInCircle`: the boundary counts as inside. */
  predicate InCircle(point: Point, center: Point, radius: real) {
    radius >= 0.0 && DistanceSquared(point, center) <= radius * radius
  }

  /** The squared test is the source's `distance(point, center) <= radius`. */
  lemma InCircleIsDistanceTest(m: Transcendentals, point: Point, center: Point, radius: real)
    requires SqrtSound(m)
    ensures InCircle(point, center, radius) <==> Distance(m, point, center) <= radius
  {
    SqrtAtMostIff(m, DistanceSquared(point, center), radius);
  }

  /** `isPointInStartTriangle`: not a triangle test at all, but a circle of
      radius `size * 0.4 + tolerance` about the centre. */
  predicate InStartTriangle(point: Point, center: Point, size: real, tolerance: real) {
    InCircle(point, center, size * 0.4 + tolerance)
  }

  /** The approximation misses part of the drawn triangle: the triangle's
      apex lies `size / sqrt 3` (about 0.577 size) from the centre, so the
      point half a side above the centre is inside the drawn symbol yet,
      with no tolerance, is not a hit. */
  lemma StartClickMissesApexRegion(center: Point, size: real)
    requires size > 0.0
    ensures DistanceSquared(Point(center.x, center.y - size / 2.0), center) < size * size / 3.0
    ensures !InStartTriangle(Point(center.x, center.y - size / 2.0), center, size, 0.0)
  {
  }

  /** The signed area test: positive when `p2` is left of the line `p0 -> p1`,
      zero when the three points are collinear. */
  function IsLeft(p0: Point, p1: Point, p2: Point): (r: real)
    ensures p2 == p0 || p2 == p1 ==> r == 0.0
    ensures r == -((p0.x - p1.x) * (p2.y - p1.y) - (p2.x - p1.x) * (p0.y - p1.y))
  {
    (p1.x - p0.x) * (p2.y - p0.y) - (p2.x - p0.x) * (p1.y - p0.y)
  }

  /** What one polygon edge `a -> b` adds to the winding number about `p`:
      +1 for an upward crossing with `p` strictly left of the edge, -1 for a
      downward crossing with `p` strictly right of it, 0 otherwise. */
  function EdgeCrossing(a: Point, b: Point, p: Point): (r: int)
    ensures -1 <= r <= 1
    ensures r == 1 <==> a.y <= p.y < b.y && IsLeft(a, b, p) > 0.0
    ensures r == -1 <==> b.y <= p.y < a.y && IsLeft(a, b, p) < 0.0
    ensures IsLeft(a, b, p) == 0.0 ==> r == 0
  {
    if a.y <= p.y then
      if b.y > p.y && IsLeft(a, b, p) > 0.0 then 1 else 0
    else
      if b.y <= p.y && IsLeft(a, b, p) < 0.0 then -1 else 0
  }

  /** An edge walked backwards contributes the opposite amount. */
  lemma EdgeCrossingReversed(a: Point, b: Point, p: Point)
    ensures EdgeCrossing(b, a, p) == -EdgeCrossing(a, b, p)
  {
    assert IsLeft(b, a, p) == -IsLeft(a, b, p);
  }

  /** Edge `i` of a polygon, the last one wrapping back to the first vertex. */
  function EdgeStart(poly: seq<Point>, i: nat): Point
    requires i < |poly|
  {
    poly[i]
  }

  function EdgeEnd(poly: seq<Point>, i: nat): Point
    requires i < |poly|
  {
    poly[(i + 1) % |poly|]
  }

  /** Sum of the crossings of the first `k` edges. */
  function WindingPrefix(p: Point, poly: seq<Point>, k: nat): (w: int)
    requires k <= |poly|
    ensures -(k as int) <= w <= k
  {
    if k == 0 then 0
    else WindingPrefix(p, poly, k - 1) + EdgeCrossing(EdgeStart(poly, k - 1), EdgeEnd(poly, k - 1), p)
  }

  /** The winding number of `poly` about `p`. */
  function WindingNumber(p: Point, poly: seq<Point>): (w: int)
    ensures -(|poly| as int) <= w <= |poly|
    ensures |poly| == 0 ==> w == 0
  {
    WindingPrefix(p, poly, |poly|)
  }

  /** Inside exactly when the winding number is not zero. */
  predicate InPolygon(p: Point, poly: seq<Point>) {
    WindingNumber(p, poly) != 0
  }

  /** `isPointInPolygon`, as the source's loop. */
  method IsPointInPolygon(point: Point, polygon: seq<Point>) returns (inside: bool)
    ensures inside <==> InPolygon(point, polygon)
    ensures |polygon| == 0 ==> !inside
  {
    var wn := 0;
    var i := 0;
    while i < |polygon|
      invariant 0 <= i <= |polygon|
      invariant wn == WindingPrefix(point, polygon, i)
    {
      var p1 := polygon[i];
      var p2 := polygon[(i + 1) % |polygon|];
      if p1.y <= point.y {
        if p2.y > point.y && IsLeft(p1, p2, point) > 0.0 {
          wn := wn + 1;
        }
      } else {
        if p2.y <= point.y && IsLeft(p1, p2, point) < 0.0 {
          wn := wn - 1;
        }
      }
      i := i + 1;
    }
    inside := wn != 0;
  }

  /** A point above every vertex (smaller y), below or level with every
      vertex, or strictly right of every vertex is outside the polygon,
      whatever its shape. */
  lemma OutsidePolygonExtent(p: Point, poly: seq<Point>)
    ensures (forall i | 0 <= i < |poly| :: p.y < poly[i].y) ==> !InPolygon(p, poly)
    ensures (forall i | 0 <= i < |poly| :: poly[i].y <= p.y) ==> !InPolygon(p, poly)
    ensures (forall i | 0 <= i < |poly| :: poly[i].x < p.x) ==> !InPolygon(p, poly)
  {
    if forall i | 0 <= i < |poly| :: p.y < poly[i].y {
      NoCrossingNoWinding(p, poly, |poly|);
    }
    if forall i | 0 <= i < |poly| :: poly[i].y <= p.y {
      NoCrossingNoWinding(p, poly, |poly|);
    }
    if forall i | 0 <= i < |poly| :: poly[i].x < p.x {
      forall i | 0 <= i < |poly| ensures EdgeCrossing(EdgeStart(poly, i), EdgeEnd(poly, i), p) == 0 {
        RightOfEdgeNoCrossing(EdgeStart(poly, i), EdgeEnd(poly, i), p);
      }
      NoCrossingNoWinding(p, poly, |poly|);
    }
  }

  lemma {:induction false} NoCrossingNoWinding(p: Point, poly: seq<Point>, k: nat)
    requires k <= |poly|
    requires forall i | 0 <= i < |poly| :: EdgeCrossing(EdgeStart(poly, i), EdgeEnd(poly, i), p) == 0
    ensures WindingPrefix(p, poly, k) == 0
  {
    if k > 0 {
      NoCrossingNoWinding(p, poly, k - 1);
    }
  }

  /** An edge with both ends strictly left of `p` never counts: crossing
      upward, `p` is right of it; crossing downward, `p` is left of it. */
  lemma RightOfEdgeNoCrossing(a: Point, b: Point, p: Point)
    requires a.x < p.x && b.x < p.x
    ensures EdgeCrossing(a, b, p) == 0
  {
    if a.y <= p.y < b.y {
      var dy, u := b.y - a.y, p.y - a.y;
      MulStrict(0.0, dy - u, p.x - a.x);
      MulNonNeg(p.x - b.x, u);
      assert (p.x - a.x) * dy - (b.x - a.x) * u == (p.x - a.x) * (dy - u) + (p.x - b.x) * u;
    }
    if b.y <= p.y < a.y {
      var e, u := a.y - b.y, a.y - p.y;
      MulNonNeg(p.x - a.x, e - u);
      MulStrict(0.0, u, p.x - b.x);
      assert IsLeft(a, b, p) == (p.x - a.x) * (e - u) + (p.x - b.x) * u;
    }
  }

  /** A point strictly inside a square is inside; one to its right is not. */
  function Square10(): seq<Point> {
    [Point(0.0, 0.0), Point(10.0, 0.0), Point(10.0, 10.0), Point(0.0, 10.0)]
  }

  lemma SquareExamples()
    ensures InPolygon(Point(5.0, 5.0), Square10())
    ensures !InPolygon(Point(15.0, 5.0), Square10())
  {
    var sq := Square10();
    var inside, outside := Point(5.0, 5.0), Point(15.0, 5.0);
    UnfoldWinding(inside, sq);
    UnfoldWinding(outside, sq);
    assert EdgeCrossing(sq[1], sq[2], inside) == 1;
    assert EdgeCrossing(sq[3], sq[0], inside) == 0;
    assert EdgeCrossing(sq[1], sq[2], outside) == 0;
    assert EdgeCrossing(sq[3], sq[0], outside) == 0;
  }

  /** The winding number as the explicit sum of its edge crossings. */
  lemma {:induction false} UnfoldWinding(p: Point, poly: seq<Point>)
    ensures WindingNumber(p, poly) == CrossingSum(p, poly, 0)
  {
    PrefixIsSum(p, poly, |poly|);
  }

  function CrossingSum(p: Point, poly: seq<Point>, i: nat): int
    requires i <= |poly|
    decreases |poly| - i
  {
    if i == |poly| then 0
    else EdgeCrossing(poly[i], poly[(i + 1) % |poly|], p) + CrossingSum(p, poly, i + 1)
  }

  lemma {:induction false} PrefixIsSum(p: Point, poly: seq<Point>, k: nat)
    requires k <= |poly|
    ensures WindingPrefix(p, poly, k) + CrossingSum(p, poly, k) == CrossingSum(p, poly, 0)
  {
    if k > 0 {
      PrefixIsSum(p, poly, k - 1);
    }
  }

  /** A concave arrow pointing right, with a notch cut into its tail: a point
      in the notch is outside, a point in the body is inside. */
  function Arrow(): seq<Point> {
    [Point(0.0, 0.0), Point(6.0, 0.0), Point(10.0, 5.0), Point(6.0, 10.0), Point(0.0, 10.0), Point(4.0, 5.0)]
  }

  lemma ArrowExamples()
    ensures !InPolygon(Point(1.0, 5.0), Arrow())
    ensures InPolygon(Point(6.0, 5.0), Arrow())
  {
    var a := Arrow();
    var notch, body := Point(1.0, 5.0), Point(6.0, 5.0);
    UnfoldWinding(notch, a);
    UnfoldWinding(body, a);
    assert EdgeCrossing(a[2], a[3], notch) == 1;
    assert EdgeCrossing(a[4], a[5], notch) == -1;
    assert EdgeCrossing(a[5], a[0], notch) == 0;
    assert EdgeCrossing(a[2], a[3], body) == 1;
    assert EdgeCrossing(a[4], a[5], body) == 0;
    assert EdgeCrossing(a[5], a[0], body) == 0;
  }

  /** The point a fraction `s` of the way from `v` to `w`. */
  function Lerp(v: Point, w: Point, s: real): Point {
    Point(v.x + s * (w.x - v.x), v.y + s * (w.y - v.y))
  }

  /** The projection parameter of `p` on the line `v -> w`, clamped to [0, 1]. */
  function ProjectionParameter(p: Point, v: Point, w: Point): (t: real)
    requires v != w
    ensures 0.0 <= t <= 1.0
  {
    var l2 := DistanceSquared(v, w);
    var t := ((p.x - v.x) * (w.x - v.x) + (p.y - v.y) * (w.y - v.y)) / l2;
    Max(0.0, Min(1.0, t))
  }

  /** `distToSegmentSquared`: the squared distance from `p` to the segment
      `v -w`, falling back to the distance to `v` when the segment is a point. */
  function DistToSegmentSquared(p: Point, v: Point, w: Point): (r: real)
    ensures 0.0 <= r <= DistanceSquared(p, v)
    ensures r <= DistanceSquared(p, w)
    ensures v == w ==> r == DistanceSquared(p, v)
    ensures v != w ==> r == DistanceSquared(p, Lerp(v, w, ProjectionParameter(p, v, w)))
    ensures forall s | 0.0 <= s <= 1.0 :: r <= DistanceSquared(p, Lerp(v, w, s))
  {
    var l2 := DistanceSquared(v, w);
    if l2 == 0.0 then
      PointSegment(v);
      DistanceSquared(p, v)
    else
      var t := ProjectionParameter(p, v, w);
      ProjectionIsNearest(p, v, w);
      assert Lerp(v, w, 0.0) == v;
      assert Lerp(v, w, 1.0) == w;
      DistanceSquared(p, Lerp(v, w, t))
  }

  /** Every point of a one-point segment is that point. */
  lemma PointSegment(v: Point)
    ensures forall s :: Lerp(v, v, s) == v
  {
  }

  lemma ProjectionIsNearest(p: Point, v: Point, w: Point)
    requires v != w
    ensures forall s | 0.0 <= s <= 1.0 ::
      DistanceSquared(p, Lerp(v, w, ProjectionParameter(p, v, w))) <= DistanceSquared(p, Lerp(v, w, s))
  {
    forall s | 0.0 <= s <= 1.0
      ensures DistanceSquared(p, Lerp(v, w, ProjectionParameter(p, v, w))) <= DistanceSquared(p, Lerp(v, w, s))
    {
      SegmentDistanceIsMinimal(p, v, w, s);
    }
  }

  /** Squared distance to a point of the line, as a quadratic in the parameter. */
  lemma LerpDistanceExpansion(p: Point, v: Point, w: Point, s: real)
    ensures DistanceSquared(p, Lerp(v, w, s)) == DistanceSquared(p, v) + Q(DistanceSquared(v, w), Dot(p, v, w), s)
  {
    var ax, ay := p.x - v.x, p.y - v.y;
    var bx, bY := w.x - v.x, w.y - v.y;
    var q := Lerp(v, w, s);
    assert p.x - q.x == ax - s * bx && p.y - q.y == ay - s * bY;
    SquareOfDifference(ax, s, bx);
    SquareOfDifference(ay, s, bY);
    assert DistanceSquared(v, w) == bx * bx + bY * bY by {
      assert v.x - w.x == -bx && v.y - w.y == -bY;
      assert (-bx) * (-bx) == bx * bx && (-bY) * (-bY) == bY * bY;
    }
    assert s * s * (bx * bx + bY * bY) == s * s * (bx * bx) + s * s * (bY * bY);
    assert 2.0 * s * (ax * bx + ay * bY) == 2.0 * s * (ax * bx) + 2.0 * s * (ay * bY);
  }

  lemma SquareOfDifference(a: real, s: real, b: real)
    ensures Square(a - s * b) == a * a - 2.0 * s * (a * b) + s * s * (b * b)
  {
    calc {
      Square(a - s * b);
      (a - s * b) * (a - s * b);
      a * a - a * (s * b) - (s * b) * a + (s * b) * (s * b);
      { assert a * (s * b) == s * (a * b) && (s * b) * a == s * (a * b); }
      a * a - 2.0 * s * (a * b) + (s * b) * (s * b);
      { assert (s * b) * (s * b) == s * s * (b * b); }
      a * a - 2.0 * s * (a * b) + s * s * (b * b);
    }
  }

  /** The part of the squared distance to `Lerp(v, w, s)` that depends on `s`. */
  function Q(l: real, d: real, s: real): real {
    s * s * l - 2.0 * s * d
  }

  function Dot(p: Point, v: Point, w: Point): real {
    (p.x - v.x) * (w.x - v.x) + (p.y - v.y) * (w.y - v.y)
  }

  /** The clamped projection is the closest point of the segment: no point
      of the segment is nearer to `p`. */
  lemma SegmentDistanceIsMinimal(p: Point, v: Point, w: Point, s: real)
    requires v != w
    requires 0.0 <= s <= 1.0
    ensures DistanceSquared(p, Lerp(v, w, ProjectionParameter(p, v, w))) <= DistanceSquared(p, Lerp(v, w, s))
  {
    var l := DistanceSquared(v, w);
    var d := Dot(p, v, w);
    var t := ProjectionParameter(p, v, w);
    LerpDistanceExpansion(p, v, w, s);
    LerpDistanceExpansion(p, v, w, t);
    QuadraticMinimum(l, d, s, t);
  }

  /** On [0, 1], `-2 s d + s^2 l` (with `l > 0`) is least at `d / l` clamped. */
  lemma QuadraticMinimum(l: real, d: real, s: real, t: real)
    requires l > 0.0 && 0.0 <= s <= 1.0
    requires t == Max(0.0, Min(1.0, d / l))
    ensures Q(l, d, t) <= Q(l, d, s)
  {
    if d <= 0.0 {
      ClampLow(l, d, s);
    } else if d >= l {
      ClampHigh(l, d, s);
    } else {
      Interior(l, d, s);
    }
  }

  lemma ClampLow(l: real, d: real, s: real)
    requires l > 0.0 && 0.0 <= s <= 1.0 && d <= 0.0
    ensures Max(0.0, Min(1.0, d / l)) == 0.0
    ensures Q(l, d, 0.0) <= Q(l, d, s)
  {
    assert d / l <= 0.0;
    MulNonNeg(s, s * l - 2.0 * d);
    assert s * (s * l - 2.0 * d) == Q(l, d, s);
  }

  lemma ClampHigh(l: real, d: real, s: real)
    requires l > 0.0 && 0.0 <= s <= 1.0 && d >= l
    ensures Max(0.0, Min(1.0, d / l)) == 1.0
    ensures Q(l, d, 1.0) <= Q(l, d, s)
  {
    assert d / l >= 1.0 by {
      assert d / l * l == d;
    }
    assert l * (1.0 + s) <= 2.0 * l;
    MulNonNeg(1.0 - s, 2.0 * d - l * (1.0 + s));
    assert (1.0 - s) * (2.0 * d - l * (1.0 + s)) == Q(l, d, s) - Q(l, d, 1.0);
  }

  lemma Interior(l: real, d: real, s: real)
    requires l > 0.0 && 0.0 <= s <= 1.0 && 0.0 < d < l
    ensures Max(0.0, Min(1.0, d / l)) == d / l
    ensures Q(l, d, d / l) <= Q(l, d, s)
  {
    var t := d / l;
    assert t * l == d;
    assert 0.0 < t < 1.0 by {
      if t <= 0.0 {
        MulNonNeg(-t, l);
      }
      if t >= 1.0 {
        MulMonotone(1.0, t, l);
      }
    }
    MulNonNeg(l, Square(s - t));
    calc {
      Q(l, d, s) - Q(l, d, t);
      s * s * l - 2.0 * s * (t * l) - t * t * l + 2.0 * t * (t * l);
      l * ((s - t) * (s - t));
      l * Square(s - t);
    }
  }

  lemma MulNonNeg(a: real, b: real)
    requires a >= 0.0 && b >= 0.0
    ensures a * b >= 0.0
  {
  }

  /** `isPointOnLeg`: within `threshold` of the segment. */
  predicate OnLeg(point: Point, from: Point, to: Point, threshold: real) {
    threshold >= 0.0 && DistToSegmentSquared(point, from, to) <= threshold * threshold
  }

  /** The squared test is the source's `sqrt(distToSegmentSquared) <= threshold`. */
  lemma OnLegIsDistanceTest(m: Transcendentals, point: Point, from: Point, to: Point, threshold: real)
    requires SqrtSound(m)
    ensures OnLeg(point, from, to, threshold)
      <==> m.sqrt(DistToSegmentSquared(point, from, to)) <= threshold
  {
    SqrtAtMostIff(m, DistToSegmentSquared(point, from, to), threshold);
  }

  /** `getAdjustedPointAlongVector`: the point `distance` from `start` toward
      `end`, or `start` itself when the two coincide. The source's
      `dx * dx + dy * dy` is `DistanceSquared(end, start)`. */
  function AdjustedPointAlongVector(m: Transcendentals, start: Point, end: Point, distance: real): (r: Point)
    ensures start == end ==> r == start
    ensures distance == 0.0 ==> r == start
    ensures (r.x - start.x) * (end.y - start.y) == (r.y - start.y) * (end.x - start.x)
    ensures SqrtSound(m) && start != end ==> DistanceSquared(start, r) == distance * distance
    ensures SqrtSound(m) && start != end && distance >= 0.0 ==>
      (r.x - start.x) * (end.x - start.x) + (r.y - start.y) * (end.y - start.y) >= 0.0
  {
    var dx := end.x - start.x;
    var dy := end.y - start.y;
    var currentDist := m.sqrt(DistanceSquared(end, start));
    if currentDist == 0.0 then
      ZeroLengthVector(m, start, end);
      start
    else
      StepFacts(m, start, end, currentDist, distance);
      Step(start, end, currentDist, distance)
  }

  /** `start` moved by `(end - start) / c * d`: the step of
      `AdjustedPointAlongVector` once the length `c` is known. */
  function Step(start: Point, end: Point, c: real, d: real): Point
    requires c != 0.0
  {
    Point(start.x + ((end.x - start.x) / c) * d, start.y + ((end.y - start.y) / c) * d)
  }

  lemma StepFacts(m: Transcendentals, start: Point, end: Point, c: real, d: real)
    requires c != 0.0
    ensures var r := Step(start, end, c, d);
      (r.x - start.x) * (end.y - start.y) == (r.y - start.y) * (end.x - start.x)
    ensures d == 0.0 ==> Step(start, end, c, d) == start
    ensures SqrtSound(m) && c == m.sqrt(DistanceSquared(end, start)) ==>
      DistanceSquared(start, Step(start, end, c, d)) == d * d
    ensures var r := Step(start, end, c, d);
      SqrtSound(m) && c == m.sqrt(DistanceSquared(end, start)) && d >= 0.0 ==>
      (r.x - start.x) * (end.x - start.x) + (r.y - start.y) * (end.y - start.y) >= 0.0
  {
    var mx, my := (end.x - start.x) / c * d, (end.y - start.y) / c * d;
    StepOffsets(start, end, c, d);
    TrimmedStep(m, start, end, c, d);
    StepLength(m, start, end, c, d);
  }

  lemma StepOffsets(start: Point, end: Point, c: real, d: real)
    requires c != 0.0
    ensures Step(start, end, c, d).x - start.x == (end.x - start.x) / c * d
    ensures Step(start, end, c, d).y - start.y == (end.y - start.y) / c * d
  {
  }

  lemma StepLength(m: Transcendentals, start: Point, end: Point, c: real, d: real)
    requires c != 0.0
    ensures SqrtSound(m) && c == m.sqrt(DistanceSquared(end, start)) ==>
      DistanceSquared(start, Step(start, end, c, d)) == d * d
  {
    if SqrtSound(m) && c == m.sqrt(DistanceSquared(end, start)) {
      var mx, my := (end.x - start.x) / c * d, (end.y - start.y) / c * d;
      TrimmedStep(m, start, end, c, d);
      assert mx * mx + my * my == d * d;
      var r := Step(start, end, c, d);
      assert r == Point(start.x + mx, start.y + my);
      OffsetDistance(start, mx, my);
      assert DistanceSquared(start, r) == mx * mx + my * my;
    }
  }

  lemma OffsetDistance(start: Point, mx: real, my: real)
    ensures DistanceSquared(start, Point(start.x + mx, start.y + my)) == mx * mx + my * my
  {
    assert start.x - (start.x + mx) == -mx;
    assert (-mx) * (-mx) == mx * mx;
    assert (-my) * (-my) == my * my;
  }

  lemma ZeroLengthVector(m: Transcendentals, start: Point, end: Point)
    requires m.sqrt(DistanceSquared(end, start)) == 0.0
    ensures SqrtSound(m) ==> start == end
  {
    if SqrtSound(m) {
      assert DistanceSquared(end, start) == 0.0 * 0.0;
    }
  }

  lemma TrimmedStep(m: Transcendentals, start: Point, end: Point, c: real, d: real)
    requires c != 0.0
    ensures var dx, dy := end.x - start.x, end.y - start.y;
      (dx / c * d) * dy == (dy / c * d) * dx
    ensures var dx, dy := end.x - start.x, end.y - start.y;
      SqrtSound(m) && c == m.sqrt(DistanceSquared(end, start)) ==>
      (dx / c * d) * (dx / c * d) + (dy / c * d) * (dy / c * d) == d * d
    ensures var dx, dy := end.x - start.x, end.y - start.y;
      SqrtSound(m) && c == m.sqrt(DistanceSquared(end, start)) && d >= 0.0 ==>
      (dx / c * d) * dx + (dy / c * d) * dy >= 0.0
  {
    var dx, dy := end.x - start.x, end.y - start.y;
    var ux, uy := dx / c, dy / c;
    assert ux * c == dx && uy * c == dy;
    calc {
      (ux * d) * dy;
      ux * d * (uy * c);
      (ux * c) * uy * d;
      dx * uy * d;
      (uy * d) * dx;
    }
    if SqrtSound(m) && c == m.sqrt(DistanceSquared(end, start)) {
      assert c >= 0.0 && c * c == dx * dx + dy * dy;
      calc {
        (ux * ux + uy * uy) * (c * c);
        (ux * c) * (ux * c) + (uy * c) * (uy * c);
        dx * dx + dy * dy;
        c * c;
      }
      assert c * c > 0.0;
      assert ux * ux + uy * uy == 1.0;
      calc {
        (ux * d) * (ux * d) + (uy * d) * (uy * d);
        (ux * ux + uy * uy) * (d * d);
        d * d;
      }
      calc {
        (ux * d) * dx + (uy * d) * dy;
        (ux * d) * (ux * c) + (uy * d) * (uy * c);
        (ux * ux + uy * uy) * (d * c);
        d * c;
      }
      if d >= 0.0 {
        MulNonNeg(d, c);
      }
    }
  }
}
