/** `getElementAtPoint` of `utils/geometry.ts` and the connectable-element
    pick of the Leg tool: which element a click lands on. Point symbols are
    tried first, then Areas, then Legs; within each pass the element latest
    in the course (drawn on top) wins. */
module HitTest {
  import opened Wrappers
  import opened CourseModel
  import opened Geometry
  import opened Constants

  /** Five screen pixels expressed in map units at zoom `mapScale`. */
  function ClickTolerance(mapScale: real): (t: real)
    requires mapScale > 0.0
    ensures t > 0.0
    ensures t * mapScale == ClickTolerancePixels
  {
    ClickTolerancePixels / mapScale
  }

  /** Zooming in never widens the tolerance. */
  lemma ToleranceShrinksWithZoom(a: real, b: real)
    requires 0.0 < a <= b
    ensures ClickTolerance(b) <= ClickTolerance(a)
  {
    var ta, tb := ClickTolerance(a), ClickTolerance(b);
    assert tb * b == ta * a;
    if tb > ta {
      Numerics.MulStrict(ta, tb, b);
      Numerics.MulMonotone(a, b, ta);
      assert false;
    }
  }

  /** The per-kind test of the first pass: a circle for a Control or a
      Finish, the Start's inscribed-circle approximation, nothing else. */
  predicate PointSymbolHit(el: CourseElement, point: Point, tolerance: real, scales: SymbolScales) {
    match el
    case Start(_, c, _) => InStartTriangle(point, c, StartSize(scales), tolerance)
    case Control(_, c, _, _) => InCircle(point, c, ControlRadius(scales) + tolerance)
    case Finish(_, c) => InCircle(point, c, FinishOuterRadius(scales) + tolerance)
    case _ => false
  }

  /** The second pass: an Area containing the point. */
  predicate AreaHit(el: CourseElement, point: Point) {
    el.Area? && InPolygon(point, el.points)
  }

  /** The centre of the first element with this id, if that element has one. */
  function CenterOf(all: seq<CourseElement>, id: Id): (r: Option<Point>)
    ensures r.Some? <==> Find(all, id).Some? && Find(all, id).value.HasCenter()
    ensures r.Some? ==> exists e | e in all :: e.id == id && e.HasCenter() && e.center == r.value
  {
    match Find(all, id)
    case Some(e) => if e.HasCenter() then Some(e.center) else None
    case None => None
  }

  /** The third pass: a Leg whose two ends resolve to point symbols and whose
      segment passes within the tolerance. */
  predicate LegHit(el: CourseElement, point: Point, tolerance: real, all: seq<CourseElement>) {
    el.Leg? &&
    match (CenterOf(all, el.fromElementId), CenterOf(all, el.toElementId))
    case (Some(a), Some(b)) => OnLeg(point, a, b, tolerance)
    case _ => false
  }

  /** A Leg with an unresolved end is never hit. */
  lemma DanglingLegNeverHit(el: CourseElement, point: Point, tolerance: real, all: seq<CourseElement>)
    requires el.Leg?
    requires CenterOf(all, el.fromElementId).None? || CenterOf(all, el.toElementId).None?
    ensures !LegHit(el, point, tolerance, all)
  {
  }

  datatype Pass = PointPass | AreaPass | LegPass

  predicate HitIn(pass: Pass, el: CourseElement, point: Point, tolerance: real,
                  scales: SymbolScales, all: seq<CourseElement>)
  {
    match pass
    case PointPass => PointSymbolHit(el, point, tolerance, scales)
    case AreaPass => AreaHit(el, point)
    case LegPass => LegHit(el, point, tolerance, all)
  }

  /** Any of the three tests. */
  predicate AnyHit(el: CourseElement, point: Point, tolerance: real,
                   scales: SymbolScales, all: seq<CourseElement>)
  {
    PointSymbolHit(el, point, tolerance, scales) || AreaHit(el, point) || LegHit(el, point, tolerance, all)
  }

  /** The test of one pass, as a predicate on elements. */
  function PassTest(pass: Pass, point: Point, tolerance: real, scales: SymbolScales,
                    all: seq<CourseElement>): CourseElement -> bool
  {
    (e: CourseElement) => HitIn(pass, e, point, tolerance, scales, all)
  }

  /** One backward pass over `els[..n]`: the index of the last element the
      pass's test `hit` accepts. */
  function LastHit(els: seq<CourseElement>, n: nat, hit: CourseElement -> bool): (r: Option<nat>)
    requires n <= |els|
    ensures r.Some? ==> r.value < n && hit(els[r.value])
    ensures r.Some? ==> forall j | r.value < j < n :: !hit(els[j])
    ensures r.None? ==> forall j | 0 <= j < n :: !hit(els[j])
    decreases n
  {
    if n == 0 then None
    else if hit(els[n - 1]) then Some(n - 1)
    else LastHit(els, n - 1, hit)
  }

  /** The index `getElementAtPoint` returns, with a pass-by-pass priority. */
  function HitIndex(point: Point, els: seq<CourseElement>, tolerance: real,
                    all: seq<CourseElement>, scales: SymbolScales): (r: Option<nat>)
    ensures r.Some? ==> r.value < |els|
  {
    match LastHit(els, |els|, PassTest(PointPass, point, tolerance, scales, all))
    case Some(i) => Some(i)
    case None =>
      match LastHit(els, |els|, PassTest(AreaPass, point, tolerance, scales, all))
      case Some(i) => Some(i)
      case None => LastHit(els, |els|, PassTest(LegPass, point, tolerance, scales, all))
  }

  /** `getElementAtPoint`. `all` is the list Leg ends are resolved in. */
  function ElementAtPoint(point: Point, els: seq<CourseElement>, mapScale: real,
                          all: seq<CourseElement>, scales: SymbolScales): (r: Option<CourseElement>)
    requires mapScale > 0.0
    ensures var tol := ClickTolerance(mapScale);
      r.None? <==> forall e | e in els :: !AnyHit(e, point, tol, scales, all)
    ensures r.Some? ==> r.value in els && AnyHit(r.value, point, ClickTolerance(mapScale), scales, all)
    // point symbols beat Areas, which beat Legs
    ensures r.Some? && !r.value.HasCenter() ==>
      forall e | e in els :: !PointSymbolHit(e, point, ClickTolerance(mapScale), scales)
    ensures r.Some? && r.value.Leg? ==>
      forall e | e in els :: !AreaHit(e, point)
    // within a pass the latest element wins
    ensures r.Some? ==> exists i | 0 <= i < |els| :: (els[i] == r.value &&
      forall j | i < j < |els| :: !(els[j].HasCenter() == r.value.HasCenter() &&
        els[j].Area? == r.value.Area? && AnyHit(els[j], point, ClickTolerance(mapScale), scales, all)))
  {
    var tol := ClickTolerance(mapScale);
    var k := HitIndex(point, els, tol, all, scales);
    HitIndexSound(point, els, tol, all, scales);
    if k.Some? then Some(els[k.value]) else None
  }

  lemma HitIndexSound(point: Point, els: seq<CourseElement>, tol: real,
                      all: seq<CourseElement>, scales: SymbolScales)
    ensures var k := HitIndex(point, els, tol, all, scales);
      && (k.None? <==> forall e | e in els :: !AnyHit(e, point, tol, scales, all))
      && (k.Some? ==> AnyHit(els[k.value], point, tol, scales, all))
      && (k.Some? && !els[k.value].HasCenter() ==> forall e | e in els :: !PointSymbolHit(e, point, tol, scales))
      && (k.Some? && els[k.value].Leg? ==> forall e | e in els :: !AreaHit(e, point))
      && (k.Some? ==> forall j | k.value < j < |els| ::
            !(els[j].HasCenter() == els[k.value].HasCenter() &&
              els[j].Area? == els[k.value].Area? && AnyHit(els[j], point, tol, scales, all)))
  {
    var p := LastHit(els, |els|, PassTest(PointPass, point, tol, scales, all));
    var a := LastHit(els, |els|, PassTest(AreaPass, point, tol, scales, all));
    var l := LastHit(els, |els|, PassTest(LegPass, point, tol, scales, all));
    if p.Some? { assert els[p.value] in els; }
    if a.Some? { assert els[a.value] in els; }
    if l.Some? { assert els[l.value] in els; }
    if p.None? {
      assert forall e | e in els :: !PointSymbolHit(e, point, tol, scales) by {
        forall e | e in els ensures !PointSymbolHit(e, point, tol, scales) {
          var i :| 0 <= i < |els| && els[i] == e;
          assert !HitIn(PointPass, els[i], point, tol, scales, all);
        }
      }
      if a.None? {
        assert forall e | e in els :: !AreaHit(e, point) by {
          forall e | e in els ensures !AreaHit(e, point) {
            var i :| 0 <= i < |els| && els[i] == e;
            assert !HitIn(AreaPass, els[i], point, tol, scales, all);
          }
        }
        if l.None? {
          forall e | e in els ensures !AnyHit(e, point, tol, scales, all) {
            var i :| 0 <= i < |els| && els[i] == e;
            assert !HitIn(LegPass, els[i], point, tol, scales, all);
          }
        }
      }
    }
  }

  /** The Leg tool's pick (App.tsx): the FIRST point symbol in course order
      that the click hits, with no Area or Leg pass. */
  function PickConnectable(point: Point, els: seq<CourseElement>, mapScale: real,
                           scales: SymbolScales): (r: Option<CourseElement>)
    requires mapScale > 0.0
    ensures r.Some? ==> r.value in els && r.value.HasCenter()
    ensures r.Some? ==> PointSymbolHit(r.value, point, ClickTolerance(mapScale), scales)
    ensures r.None? <==> forall e | e in els :: !PointSymbolHit(e, point, ClickTolerance(mapScale), scales)
    ensures r.Some? ==> exists i | 0 <= i < |els| :: (els[i] == r.value &&
      forall j | 0 <= j < i :: !PointSymbolHit(els[j], point, ClickTolerance(mapScale), scales))
  {
    var tol := ClickTolerance(mapScale);
    match FirstPointHit(point, els, tol, scales)
    case Some(i) => Some(els[i])
    case None =>
      assert forall e | e in els :: !PointSymbolHit(e, point, tol, scales) by {
        forall e | e in els ensures !PointSymbolHit(e, point, tol, scales) {
          var i :| 0 <= i < |els| && els[i] == e;
        }
      }
      None
  }

  /** Index of the first element the point-symbol test accepts. */
  function FirstPointHit(point: Point, els: seq<CourseElement>, tol: real,
                         scales: SymbolScales): (r: Option<nat>)
    ensures r.Some? ==> r.value < |els| && PointSymbolHit(els[r.value], point, tol, scales)
    ensures r.Some? ==> forall j | 0 <= j < r.value :: !PointSymbolHit(els[j], point, tol, scales)
    ensures r.None? ==> forall j | 0 <= j < |els| :: !PointSymbolHit(els[j], point, tol, scales)
  {
    if |els| == 0 then None
    else if PointSymbolHit(els[0], point, tol, scales) then Some(0)
    else match FirstPointHit(point, els[1..], tol, scales)
      case None => None
      case Some(k) => Some(k + 1)
  }

  /** With two overlapping symbols the two tools disagree: the select tool
      takes the later one, the Leg tool the earlier one. */
  lemma OverlappingSymbolsPickedDifferently(point: Point, a: CourseElement, b: CourseElement,
                                            mapScale: real, scales: SymbolScales, all: seq<CourseElement>)
    requires mapScale > 0.0
    requires PointSymbolHit(a, point, ClickTolerance(mapScale), scales)
    requires PointSymbolHit(b, point, ClickTolerance(mapScale), scales)
    ensures ElementAtPoint(point, [a, b], mapScale, all, scales) == Some(b)
    ensures PickConnectable(point, [a, b], mapScale, scales) == Some(a)
  {
    var tol := ClickTolerance(mapScale);
    assert [a, b][1] == b;
    assert LastHit([a, b], 2, PassTest(PointPass, point, tol, scales, all)) == Some(1);
    assert FirstPointHit(point, [a, b], tol, scales) == Some(0);
  }

  /** Two Controls one map unit apart both take a click half-way between
      them at zoom 1. */
  lemma OverlapExample()
    ensures var c1 := Control("c1", Point(0.0, 0.0), 1, DefaultControlDescription(1));
      var c2 := Control("c2", Point(1.0, 0.0), 2, DefaultControlDescription(2));
      && PointSymbolHit(c1, Point(0.5, 0.0), ClickTolerance(1.0), DefaultScales)
      && PointSymbolHit(c2, Point(0.5, 0.0), ClickTolerance(1.0), DefaultScales)
  {
    var p := Point(0.5, 0.0);
    HalfUnitApart();
    NearControlHit(Control("c1", Point(0.0, 0.0), 1, DefaultControlDescription(1)), p);
    NearControlHit(Control("c2", Point(1.0, 0.0), 2, DefaultControlDescription(2)), p);
  }

  lemma HalfUnitApart()
    ensures DistanceSquared(Point(0.5, 0.0), Point(0.0, 0.0)) == 0.25
    ensures DistanceSquared(Point(0.5, 0.0), Point(1.0, 0.0)) == 0.25
  {
    assert Numerics.Square(0.5) == 0.25 && Numerics.Square(-0.5) == 0.25 && Numerics.Square(0.0) == 0.0;
  }

  /** At zoom 1 and the default multipliers a Control takes any click within
      20 map units of its centre. */
  lemma NearControlHit(c: CourseElement, p: Point)
    requires c.Control? && DistanceSquared(p, c.center) <= 400.0
    ensures PointSymbolHit(c, p, ClickTolerance(1.0), DefaultScales)
  {
    assert ClickTolerance(1.0) == 5.0;
    assert ControlRadius(DefaultScales) == 15.0;
  }

  /** One of the source's backward loops. */
  method ScanBackward(els: seq<CourseElement>, hit: CourseElement -> bool) returns (k: Option<nat>)
    ensures k == LastHit(els, |els|, hit)
  {
    var i := |els|;
    while i > 0
      invariant 0 <= i <= |els|
      invariant LastHit(els, |els|, hit) == LastHit(els, i, hit)
    {
      i := i - 1;
      if hit(els[i]) {
        return Some(i);
      }
    }
    return None;
  }

  /** `getElementAtPoint` written as the source's three backward loops. */
  method GetElementAtPoint(point: Point, els: seq<CourseElement>, mapScale: real,
                           all: seq<CourseElement>, scales: SymbolScales) returns (r: Option<CourseElement>)
    requires mapScale > 0.0
    ensures r == ElementAtPoint(point, els, mapScale, all, scales)
  {
    var tol := ClickTolerance(mapScale);
    var k := ScanBackward(els, PassTest(PointPass, point, tol, scales, all));
    if k.None? {
      k := ScanBackward(els, PassTest(AreaPass, point, tol, scales, all));
      if k.None? {
        k := ScanBackward(els, PassTest(LegPass, point, tol, scales, all));
      }
    }
    r := if k.Some? then Some(els[k.value]) else None;
  }
}
