/** The arithmetic of `drawCourseElementOnContext` and
    `getConnectableElementVisuals` in components/MapDisplay.tsx. Drawing an
    element yields the list of primitives it puts on the canvas, each with
    its own colour, width and dash pattern; the canvas calls themselves are
    not part of this model. `zoom` is the map transform's scale. */
module Rendering {
  import opened Wrappers
  import opened CourseModel
  import opened Numerics
  import opened Constants
  import opened Geometry
  import opened HitTest
  import Decimal

  /** Stroke colours: course purple, the selection colour, the grey outline of
      an Area. Labels are always filled in course purple. */
  datatype Ink = CoursePurple | SelectedInk | AreaOutlineInk

  /** Area fills: translucent red for a forbidden area, white for a corridor. */
  datatype AreaFill = ForbiddenFill | CorridorFill

  datatype Primitive =
    | Polyline(points: seq<Point>, closed: bool, ink: Ink, width: real, dash: seq<real>)
    | Arc(center: Point, radius: real, ink: Ink, width: real)
    | Label(text: string, at: Point, fontSize: real)
    | FillPolygon(points: seq<Point>, fill: AreaFill)

  /** Where a Leg may attach and how far from the centre it must stop. */
  datatype Visual = Visual(center: Point, effectiveRadius: real)

  /** `getConnectableElementVisuals`: the centre and stopping radius of the
      element with this id; a Start's is the radius of the circle inscribed
      in its triangle. Nothing for an unknown id or a Leg or Area. */
  function ConnectableVisuals(id: Id, all: seq<CourseElement>, scales: SymbolScales, m: Transcendentals)
    : (r: Option<Visual>)
    ensures r.Some? <==> CenterOf(all, id).Some?
    ensures r.Some? ==> r.value.center == CenterOf(all, id).value
    ensures r.Some? && Find(all, id).value.Control? ==> r.value.effectiveRadius == ControlRadius(scales)
    ensures r.Some? && Find(all, id).value.Finish? ==> r.value.effectiveRadius == FinishOuterRadius(scales)
    ensures r.Some? && Find(all, id).value.Start? ==>
      r.value.effectiveRadius == TriangleHeight(StartSize(scales), m) / 3.0
  {
    match Find(all, id)
    case None => None
    case Some(Start(_, c, _)) => Some(Visual(c, StartSize(scales) * m.sqrt(3.0) / 6.0))
    case Some(Control(_, c, _, _)) => Some(Visual(c, ControlRadius(scales)))
    case Some(Finish(_, c)) => Some(Visual(c, FinishOuterRadius(scales)))
    case Some(_) => None
  }

  /** Height of the equilateral Start triangle of side `size`. */
  function TriangleHeight(size: real, m: Transcendentals): real {
    (m.sqrt(3.0) / 2.0) * size
  }

  /** A size in map units shown at zoom `zoom`, in pixels, but never below
      `floor` pixels. */
  function OnScreen(floor: real, mapSize: real, zoom: real): (w: real)
    requires zoom > 0.0
    ensures w >= floor && w * zoom >= mapSize
    ensures w == floor || w * zoom == mapSize
  {
    var scaled := mapSize / zoom;
    if floor >= scaled then
      MulMonotone(scaled, floor, zoom);
      floor
    else scaled
  }

  /** The screen width of a symbol outline: the scaled base width, but never
      thinner than half a pixel. */
  function OutlineWidth(multiplier: int, zoom: real): (w: real)
    requires zoom > 0.0
    ensures w >= 0.5 && w * zoom >= SymbolBaseLineWidth * Factor(multiplier)
  {
    OnScreen(0.5, SymbolBaseLineWidth * Factor(multiplier), zoom)
  }

  /** `local` turned by `angle` about the origin and moved to `center`. */
  function Place(center: Point, local: Point, angle: real, m: Transcendentals): Point {
    var c, s := m.cos(angle), m.sin(angle);
    Point(center.x + (local.x * c - local.y * s), center.y + (local.x * s + local.y * c))
  }

  /** The three corners of a Start: apex first, pointing up before rotation,
      the triangle's centroid on `center`. */
  function StartCorners(center: Point, size: real, angle: real, m: Transcendentals): (ps: seq<Point>)
    ensures |ps| == 3
    ensures ps[0].x + ps[1].x + ps[2].x == 3.0 * center.x
    ensures ps[0].y + ps[1].y + ps[2].y == 3.0 * center.y
  {
    var h := TriangleHeight(size, m);
    [Place(center, Point(0.0, -(2.0 / 3.0) * h), angle, m),
     Place(center, Point(-size / 2.0, (1.0 / 3.0) * h), angle, m),
     Place(center, Point(size / 2.0, (1.0 / 3.0) * h), angle, m)]
  }

  function StrokeInk(isSelected: bool): Ink {
    if isSelected then SelectedInk else CoursePurple
  }

  /** The Leg segment: each end moved from its symbol's centre toward the
      other by the symbol's radius plus the connection gap. */
  function LegSegment(from: Visual, to: Visual, scales: SymbolScales, m: Transcendentals): (ps: seq<Point>)
    ensures |ps| == 2
    ensures SqrtSound(m) && from.center != to.center ==>
      && DistanceSquared(from.center, ps[0]) == Square(from.effectiveRadius + LegConnectionGap * Factor(scales.control))
      && DistanceSquared(to.center, ps[1]) == Square(to.effectiveRadius + LegConnectionGap * Factor(scales.control))
  {
    var gap := LegConnectionGap * Factor(scales.control);
    [AdjustedPointAlongVector(m, from.center, to.center, from.effectiveRadius + gap),
     AdjustedPointAlongVector(m, to.center, from.center, to.effectiveRadius + gap)]
  }

  /** A Start: one closed triangle centred on its centre and turned by its
      angle, 0 when it has none. */
  function DrawStart(el: CourseElement, isSelected: bool, zoom: real, scales: SymbolScales, m: Transcendentals)
    : (r: seq<Primitive>)
    requires zoom > 0.0 && el.Start?
    ensures |r| == 1 && r[0].Polyline? && r[0].closed && r[0].dash == []
    ensures |r[0].points| == 3
    ensures r[0].points == StartCorners(el.center, StartSize(scales), el.rotationAngle.GetOr(0.0), m)
    ensures r[0].ink == StrokeInk(isSelected) && r[0].width >= 0.5
    ensures r[0].width == OutlineWidth(scales.start, zoom)
  {
    [Polyline(StartCorners(el.center, StartSize(scales), el.rotationAngle.GetOr(0.0), m), true,
              StrokeInk(isSelected), OutlineWidth(scales.start, zoom), [])]
  }

  /** A Control: its circle, and its number centred above it. */
  function DrawControl(el: CourseElement, isSelected: bool, zoom: real, scales: SymbolScales)
    : (r: seq<Primitive>)
    requires zoom > 0.0 && el.Control?
    ensures |r| == 2 && r[0].Arc? && r[1].Label?
    ensures r[0].center == el.center && r[0].radius == ControlRadius(scales)
    ensures r[0].ink == StrokeInk(isSelected) && r[0].width >= 0.5
    ensures r[0].width == OutlineWidth(scales.control, zoom)
    ensures Decimal.ParseInt(r[1].text) == Some(el.number)
    ensures r[1].at == Point(el.center.x, el.center.y - r[0].radius - TextGapAboveControl * Factor(scales.control))
    ensures r[1].fontSize == LabelFontSize(scales.control, zoom)
  {
    [Arc(el.center, ControlRadius(scales), StrokeInk(isSelected), OutlineWidth(scales.control, zoom)),
     ControlLabel(el, zoom, scales)]
  }

  /** The number of a Control, its baseline the text gap above the circle. */
  function ControlLabel(el: CourseElement, zoom: real, scales: SymbolScales): (r: Primitive)
    requires zoom > 0.0 && el.Control?
    ensures r.Label? && Decimal.ParseInt(r.text) == Some(el.number)
    ensures r.at == Point(el.center.x, el.center.y - ControlRadius(scales) - TextGapAboveControl * Factor(scales.control))
    ensures r.fontSize == LabelFontSize(scales.control, zoom)
  {
    var textY := el.center.y - ControlRadius(scales) - TextGapAboveControl * Factor(scales.control);
    Label(NumberText(el.number), Point(el.center.x, textY), LabelFontSize(scales.control, zoom))
  }

  /** The label's font size in pixels: the scaled base size, at least 6. */
  function LabelFontSize(multiplier: int, zoom: real): (f: real)
    requires zoom > 0.0
    ensures f >= 6.0 && f * zoom >= ControlNumberBaseFontSize * Factor(multiplier)
  {
    OnScreen(6.0, ControlNumberBaseFontSize * Factor(multiplier), zoom)
  }

  /** `'' + number`: the decimal text of the number, which reads back as it. */
  function NumberText(n: int): (s: string)
    ensures Decimal.ParseInt(s) == Some(n)
  {
    Decimal.ParseIntOfIntToString(n);
    Decimal.IntToString(n)
  }

  /** A Finish: two concentric circles, the inner two thirds of the outer. */
  function DrawFinish(el: CourseElement, isSelected: bool, zoom: real, scales: SymbolScales)
    : (r: seq<Primitive>)
    requires zoom > 0.0 && el.Finish?
    ensures |r| == 2 && r[0].Arc? && r[1].Arc?
    ensures r[0].center == r[1].center == el.center
    ensures r[0].radius == FinishOuterRadius(scales) && r[1].radius * 3.0 == r[0].radius * 2.0
    ensures r[0].width == r[1].width && r[0].width >= 0.5
    ensures r[0].width == OutlineWidth(scales.finish, zoom)
    ensures r[0].ink == r[1].ink == StrokeInk(isSelected)
  {
    var outer := FinishOuterRadius(scales);
    var width := OutlineWidth(scales.finish, zoom);
    [Arc(el.center, outer, StrokeInk(isSelected), width),
     Arc(el.center, outer * FinishInnerRadiusProportion, StrokeInk(isSelected), width)]
  }

  /** A Leg: one open segment when both ends resolve, else nothing. Only a
      dashed Leg carries a dash pattern, so no pattern outlives its Leg. */
  function DrawLeg(el: CourseElement, isSelected: bool, all: seq<CourseElement>, zoom: real,
                   scales: SymbolScales, m: Transcendentals): (r: seq<Primitive>)
    requires zoom > 0.0 && el.Leg?
    ensures var from, to := ConnectableVisuals(el.fromElementId, all, scales, m), ConnectableVisuals(el.toElementId, all, scales, m);
      && (r == [] <==> from.None? || to.None?)
      && (r != [] ==>
           && |r| == 1 && r[0].Polyline? && !r[0].closed && r[0].ink == StrokeInk(isSelected)
           && r[0].points == LegSegment(from.value, to.value, scales, m))
    ensures r != [] ==> (r[0].dash != [] <==> el.style == Dashed)
    ensures r != [] && el.style == Uncrossable ==> r[0].width >= 0.7
    ensures r != [] ==> r[0].width >= 0.5
  {
    match (ConnectableVisuals(el.fromElementId, all, scales, m), ConnectableVisuals(el.toElementId, all, scales, m))
    case (Some(from), Some(to)) =>
      var f := Factor(scales.control);
      var base := LegBaseLineWidth * f;
      var width := Max(0.5, (if isSelected then base + 0.5 else base) / zoom);
      var dashSegment := Max(1.0, 5.0 * f / zoom);
      var segment := LegSegment(from, to, scales, m);
      var ink := StrokeInk(isSelected);
      (match el.style
       case Dashed => [Polyline(segment, false, ink, width, [dashSegment, dashSegment])]
       case Uncrossable => [Polyline(segment, false, ink, Max(0.7, (LegBaseLineWidth + 1.0) * f / zoom), [])]
       case Solid => [Polyline(segment, false, ink, width, [])])
    case _ => []
  }

  /** An Area: nothing below two corners, else its fill and its outline. */
  function DrawArea(el: CourseElement, isSelected: bool, zoom: real): (r: seq<Primitive>)
    requires zoom > 0.0 && el.Area?
    ensures r == [] <==> |el.points| < 2
    ensures r != [] ==>
      && |r| == 2 && r[0] == FillPolygon(el.points, if el.kind == Forbidden then ForbiddenFill else CorridorFill)
      && r[1].Polyline? && r[1].points == el.points && r[1].closed && r[1].dash == []
      && r[1].ink == (if isSelected then SelectedInk else AreaOutlineInk)
      && r[1].width >= 0.3
  {
    if |el.points| < 2 then []
    else
      [FillPolygon(el.points, if el.kind == Forbidden then ForbiddenFill else CorridorFill),
       Polyline(el.points, true, if isSelected then SelectedInk else AreaOutlineInk, Max(0.3, 0.5 / zoom), [])]
  }

  /** What drawing `el` puts on the canvas: nothing only for a Leg with an
      unresolved end or an Area of fewer than two corners. */
  function DrawElement(el: CourseElement, isSelected: bool, all: seq<CourseElement>, zoom: real,
                       scales: SymbolScales, m: Transcendentals): (r: seq<Primitive>)
    requires zoom > 0.0
    ensures 1 <= |r| <= 2 || r == []
    ensures r == [] <==>
      || (el.Leg? && (CenterOf(all, el.fromElementId).None? || CenterOf(all, el.toElementId).None?))
      || (el.Area? && |el.points| < 2)
  {
    match el
    case Start(_, _, _) => DrawStart(el, isSelected, zoom, scales, m)
    case Control(_, _, _, _) => DrawControl(el, isSelected, zoom, scales)
    case Finish(_, _) => DrawFinish(el, isSelected, zoom, scales)
    case Leg(_, _, _, _) => DrawLeg(el, isSelected, all, zoom, scales, m)
    case Area(_, _, _) => DrawArea(el, isSelected, zoom)
  }

  // ----- properties ------------------------------------------------------------

  /** Each corner of a Start lies on the circle of radius twice the Leg
      stopping radius (the circumcircle of the triangle whose inscribed circle
      the Legs stop at), given a true square root and a rotation that keeps
      lengths. */
  lemma StartCornersOnCircumcircle(center: Point, size: real, angle: real, m: Transcendentals)
    requires SqrtSound(m)
    requires m.cos(angle) * m.cos(angle) + m.sin(angle) * m.sin(angle) == 1.0
    ensures var r, ps := TriangleHeight(size, m) / 3.0, StartCorners(center, size, angle, m);
      forall i | 0 <= i < 3 :: DistanceSquared(center, ps[i]) == 4.0 * r * r
  {
    var h := TriangleHeight(size, m);
    var ps := StartCorners(center, size, angle, m);
    var target := 4.0 * (h / 3.0) * (h / 3.0);
    HeightSquared(size, m);
    assert target == size * size / 3.0;
    CornerDistance(center, Point(0.0, -(2.0 / 3.0) * h), angle, m, target);
    CornerDistance(center, Point(-size / 2.0, (1.0 / 3.0) * h), angle, m, target);
    CornerDistance(center, Point(size / 2.0, (1.0 / 3.0) * h), angle, m, target);
  }

  lemma CornerDistance(center: Point, local: Point, angle: real, m: Transcendentals, target: real)
    requires m.cos(angle) * m.cos(angle) + m.sin(angle) * m.sin(angle) == 1.0
    requires local.x * local.x + local.y * local.y == target
    ensures DistanceSquared(center, Place(center, local, angle, m)) == target
  {
    PlacedDistance(center, local, angle, m);
  }

  lemma HeightSquared(size: real, m: Transcendentals)
    requires SqrtSound(m)
    ensures TriangleHeight(size, m) * TriangleHeight(size, m) == 0.75 * size * size
  {
    var q := m.sqrt(3.0);
    assert q * q == 3.0;
    calc {
      TriangleHeight(size, m) * TriangleHeight(size, m);
      (q / 2.0 * size) * (q / 2.0 * size);
      (q * q) / 4.0 * (size * size);
      0.75 * size * size;
    }
  }

  /** Turning about the centre keeps the distance to it. */
  lemma PlacedDistance(center: Point, local: Point, angle: real, m: Transcendentals)
    requires m.cos(angle) * m.cos(angle) + m.sin(angle) * m.sin(angle) == 1.0
    ensures DistanceSquared(center, Place(center, local, angle, m)) == local.x * local.x + local.y * local.y
  {
    var c, s := m.cos(angle), m.sin(angle);
    var u, v := local.x * c - local.y * s, local.x * s + local.y * c;
    var p := Place(center, local, angle, m);
    assert center.x - p.x == -u && center.y - p.y == -v;
    calc {
      DistanceSquared(center, p);
      u * u + v * v;
      (local.x * local.x + local.y * local.y) * (c * c + s * s);
      local.x * local.x + local.y * local.y;
    }
  }

  /** A Leg stops where the symbol is drawn: at a Control's or a Finish's
      outer circle, at the inscribed circle of a Start's triangle. */
  lemma LegStopsAtDrawnSymbol(e: CourseElement, all: seq<CourseElement>, zoom: real,
                              scales: SymbolScales, m: Transcendentals)
    requires zoom > 0.0 && e.HasCenter() && UniqueIds(all) && e in all
    ensures var v := ConnectableVisuals(e.id, all, scales, m);
      && v.Some? && v.value.center == e.center
      && (e.Control? ==> v.value.effectiveRadius == DrawControl(e, false, zoom, scales)[0].radius)
      && (e.Finish? ==> v.value.effectiveRadius == DrawFinish(e, false, zoom, scales)[0].radius)
      && (e.Start? ==> v.value.effectiveRadius == TriangleHeight(StartSize(scales), m) / 3.0)
  {
    FindUnique(all, e);
  }

  /** In a consistent course every Leg is drawn. */
  lemma ConsistentCourseDrawsEveryLeg(all: seq<CourseElement>, leg: CourseElement, isSelected: bool,
                                      zoom: real, scales: SymbolScales, m: Transcendentals)
    requires zoom > 0.0 && UniqueIds(all) && NoDanglingLegs(all) && leg in all && leg.Leg?
    ensures |DrawLeg(leg, isSelected, all, zoom, scales, m)| == 1
  {
    EndResolves(all, leg, leg.fromElementId);
    EndResolves(all, leg, leg.toElementId);
  }

  lemma EndResolves(all: seq<CourseElement>, leg: CourseElement, endId: Id)
    requires UniqueIds(all) && NoDanglingLegs(all) && leg in all && leg.References(endId)
    ensures CenterOf(all, endId).Some?
  {
    var e :| e in all && e.id == endId && e.HasCenter();
    FindUnique(all, e);
  }

  /** A Leg that can be clicked is drawn: a hit needs both ends to resolve. */
  lemma HittableLegIsDrawn(leg: CourseElement, point: Point, tolerance: real, all: seq<CourseElement>,
                           isSelected: bool, zoom: real, scales: SymbolScales, m: Transcendentals)
    requires zoom > 0.0 && LegHit(leg, point, tolerance, all)
    ensures DrawLeg(leg, isSelected, all, zoom, scales, m) != []
  {
    assert CenterOf(all, leg.fromElementId).Some? && CenterOf(all, leg.toElementId).Some?;
  }

  /** The Leg the stale first end produces (`Editing.StaleLegStartLeavesDanglingLeg`)
      is neither drawn nor hittable. */
  lemma StaleLegIsInvisible(zoom: real, point: Point, tolerance: real, scales: SymbolScales, m: Transcendentals)
    requires zoom > 0.0
    ensures var all := [Finish("b", Point(10.0, 0.0)), Leg("l", "a", "b", Solid)];
      && DrawLeg(all[1], false, all, zoom, scales, m) == []
      && !LegHit(all[1], point, tolerance, all)
  {
    var all := [Finish("b", Point(10.0, 0.0)), Leg("l", "a", "b", Solid)];
    assert Find(all, "a").None? by {
      assert forall e | e in all :: e.id != "a";
    }
  }

  /** Selecting changes only colours and a Leg's width: the shapes drawn are
      the same. */
  lemma SelectionOnlyRecolours(el: CourseElement, all: seq<CourseElement>, zoom: real,
                               scales: SymbolScales, m: Transcendentals)
    requires zoom > 0.0
    ensures var a, b := DrawElement(el, true, all, zoom, scales, m), DrawElement(el, false, all, zoom, scales, m);
      |a| == |b| && forall i | 0 <= i < |a| :: Outline(a[i]) == Outline(b[i])
  {
  }

  /** A primitive without its colour and width. */
  function Outline(p: Primitive): Primitive {
    match p
    case Polyline(ps, closed, _, _, dash) => Polyline(ps, closed, CoursePurple, 0.0, dash)
    case Arc(c, radius, _, _) => Arc(c, radius, CoursePurple, 0.0)
    case _ => p
  }

  /** With a multiplier in range every symbol has a positive size, so the
      Finish's inner circle sits strictly inside the outer one and a Control's
      number sits above its circle. */
  lemma SymbolsNest(el: CourseElement, all: seq<CourseElement>, zoom: real, scales: SymbolScales, m: Transcendentals)
    requires zoom > 0.0 && scales.control >= MinSymbolScale && scales.finish >= MinSymbolScale
    requires el.Finish? || el.Control?
    ensures el.Finish? ==> var d := DrawFinish(el, false, zoom, scales); 0.0 < d[1].radius < d[0].radius
    ensures el.Control? ==> var d := DrawControl(el, false, zoom, scales); d[1].at.y < el.center.y - d[0].radius
  {
  }
}
