/** The editing operations of App.tsx other than deletion: placing a symbol,
    closing an Area, joining two symbols with a Leg and moving an element.
    Fresh ids, drawn by the program from the clock and a random source,
    arrive here as parameters. */
module Editing {
  import opened Wrappers
  import opened CourseModel
  import opened Numerics
  import opened Orientation
  import opened Cascade
  import opened CascadeProperties

  /** No element of the course carries `id`. */
  ghost predicate FreshId(els: seq<CourseElement>, id: Id) {
    forall e | e in els :: e.id != id
  }

  // ----- appending -----------------------------------------------------------

  lemma {:induction false} ControlsOfAppend(els: seq<CourseElement>, e: CourseElement)
    ensures ControlsOf(els + [e]) == ControlsOf(els) + (if e.Control? then [e] else [])
  {
    if |els| == 0 {
      assert els + [e] == [e];
    } else {
      assert (els + [e])[1..] == els[1..] + [e];
      ControlsOfAppend(els[1..], e);
    }
  }

  lemma HasPointGrows(els: seq<CourseElement>, extra: seq<CourseElement>, x: Id)
    requires HasPointWithId(els, x)
    ensures HasPointWithId(els + extra, x)
  {
    var p :| p in els && p.HasCenter() && p.id == x;
    assert p in els + extra;
  }

  /** Appending keeps every Leg's ends present, provided a new Leg's own ends
      are present, and keeps ids unique when the new id is fresh. */
  lemma AppendKeeps(els: seq<CourseElement>, e: CourseElement)
    ensures NoDanglingLegs(els) &&
            (e.Leg? ==> HasPointWithId(els, e.fromElementId) && HasPointWithId(els, e.toElementId))
            ==> NoDanglingLegs(els + [e])
    ensures UniqueIds(els) && FreshId(els, e.id) ==> UniqueIds(els + [e])
  {
    var r := els + [e];
    if NoDanglingLegs(els) && (e.Leg? ==> HasPointWithId(els, e.fromElementId) && HasPointWithId(els, e.toElementId)) {
      forall l | l in r && l.Leg?
        ensures HasPointWithId(r, l.fromElementId) && HasPointWithId(r, l.toElementId)
      {
        assert l in els || l == e;
        HasPointGrows(els, [e], l.fromElementId);
        HasPointGrows(els, [e], l.toElementId);
      }
    }
    if UniqueIds(els) && FreshId(els, e.id) {
      forall i, j | 0 <= i < j < |r| ensures r[i].id != r[j].id {
        assert r[i] == els[i] && els[i] in els;
      }
    }
  }

  // ----- placing symbols -----------------------------------------------------

  /** A new element goes at the end of the course (drawn on top) and becomes
      the selection. */
  function Place(s: CourseState, e: CourseElement): (r: CourseState)
    ensures |r.elements| == |s.elements| + 1
    ensures r.elements[..|s.elements|] == s.elements && r.elements[|s.elements|] == e
    ensures r.selectedElementId == Some(e.id) && r.mapFileName == s.mapFileName
    ensures !e.Leg? && NoDanglingLegs(s.elements) ==> NoDanglingLegs(r.elements)
    ensures UniqueIds(s.elements) && FreshId(s.elements, e.id) ==> UniqueIds(r.elements)
    ensures !e.Control? ==> ControlsOf(r.elements) == ControlsOf(s.elements)
  {
    AppendKeeps(s.elements, e);
    ControlsOfAppend(s.elements, e);
    s.(elements := s.elements + [e], selectedElementId := Some(e.id))
  }

  /** The Start tool: a Start at the click, pointing straight up. */
  function PlaceStart(s: CourseState, id: Id, at: Point): (r: CourseState)
    ensures r == Place(s, Start(id, at, Some(0.0)))
    ensures r.elements == s.elements + [Start(id, at, Some(0.0))]
    ensures r.selectedElementId == Some(id) && r.mapFileName == s.mapFileName
    ensures NoDanglingLegs(s.elements) ==> NoDanglingLegs(r.elements)
    ensures UniqueIds(s.elements) && FreshId(s.elements, id) ==> UniqueIds(r.elements)
    ensures ControlsOf(r.elements) == ControlsOf(s.elements)
  {
    var r := Place(s, Start(id, at, Some(0.0)));
    assert r.elements == r.elements[..|s.elements|] + [r.elements[|s.elements|]];
    r
  }

  /** A Start placed with a fresh id touches no Leg of a course without
      dangling Legs, so its angle of 0 is the one its connections call for. */
  lemma PlacedStartIsOriented(s: CourseState, id: Id, at: Point, m: Transcendentals)
    requires NoDanglingLegs(s.elements) && FreshId(s.elements, id)
    ensures var els := PlaceStart(s, id, at).elements;
      els[|els| - 1].rotationAngle == Some(RotationFor(id, at, els, m))
  {
    var els := PlaceStart(s, id, at).elements;
    forall e | e in els ensures !e.References(id) {
      if e.Leg? {
        assert e in s.elements;
        assert !HasPointWithId(s.elements, id);
      }
    }
    UntouchedStartHasNoTarget(id, els);
  }

  /** The number the Control tool gives: one more than the Controls present. */
  function NextControlNumber(els: seq<CourseElement>): (n: int)
    ensures n >= 1
    ensures DenseNumbering(els) ==> forall c | c in ControlsOf(els) :: c.number < n
  {
    |ControlsOf(els)| + 1
  }

  /** The Control tool: a Control at the click, numbered after the existing
      ones, with the default description for that number. */
  function PlaceControl(s: CourseState, id: Id, at: Point): (r: CourseState)
    ensures var n := NextControlNumber(s.elements);
      r == Place(s, Control(id, at, n, DefaultControlDescription(n)))
    ensures Decimal.ParseInt(r.elements[|s.elements|].description.aNumber) == Some(r.elements[|s.elements|].number)
    ensures DenseNumbering(s.elements) ==> DenseNumbering(r.elements)
  {
    var n := NextControlNumber(s.elements);
    var c := Control(id, at, n, DefaultControlDescription(n));
    AppendNextControl(s.elements, c);
    Place(s, c)
  }

  lemma AppendNextControl(els: seq<CourseElement>, c: CourseElement)
    requires c.Control? && c.number == NextControlNumber(els)
    ensures DenseNumbering(els) ==> DenseNumbering(els + [c])
  {
    ControlsOfAppend(els, c);
    var cs := ControlsOf(els);
    assert ControlsOf(els + [c]) == cs + [c];
    if DenseNumbering(els) {
      forall i | 0 <= i < |cs| ensures cs[i].number < c.number {
        assert cs[i] in cs;
      }
    }
  }

  /** The Finish tool. */
  function PlaceFinish(s: CourseState, id: Id, at: Point): (r: CourseState)
    ensures r == Place(s, Finish(id, at))
    ensures r.elements == s.elements + [Finish(id, at)]
    ensures r.selectedElementId == Some(id) && r.mapFileName == s.mapFileName
    ensures NoDanglingLegs(s.elements) ==> NoDanglingLegs(r.elements)
    ensures UniqueIds(s.elements) && FreshId(s.elements, id) ==> UniqueIds(r.elements)
    ensures ControlsOf(r.elements) == ControlsOf(s.elements)
  {
    var r := Place(s, Finish(id, at));
    assert r.elements == r.elements[..|s.elements|] + [r.elements[|s.elements|]];
    r
  }

  /** Every Area outline has at least three corners. */
  ghost predicate AreasClosed(els: seq<CourseElement>) {
    forall e | e in els && e.Area? :: |e.points| >= 3
  }

  /** Enter with an Area tool: a draft of three or more points becomes an
      Area of the tool's kind, selected, and the draft is cleared; a shorter
      draft leaves everything as it was. */
  function CloseArea(s: CourseState, draft: seq<Point>, kind: AreaKind, id: Id): (r: (CourseState, seq<Point>))
    ensures r.0 != s <==> |draft| >= 3
    ensures |draft| >= 3 ==> r.1 == [] && r.0 == Place(s, Area(id, draft, kind))
    ensures |draft| < 3 ==> r.1 == draft
    ensures AreasClosed(s.elements) ==> AreasClosed(r.0.elements)
  {
    if |draft| >= 3 then
      var r := Place(s, Area(id, draft, kind));
      assert r.elements[|s.elements|] in r.elements;
      assert forall e | e in r.elements :: e in s.elements || e == Area(id, draft, kind);
      (r, [])
    else (s, draft)
  }

  // ----- legs ----------------------------------------------------------------

  /** If the element with `endId` is a Start, every element with that id
      becomes it with the angle the course calls for. */
  function OrientEnd(els: seq<CourseElement>, endId: Id, m: Transcendentals): seq<CourseElement> {
    match Find(els, endId)
    case Some(e) =>
      if e.Start? then
        MapElements(els, (x: CourseElement) => if x.id == e.id then e.(rotationAngle := Some(RotationFor(e.id, e.center, els, m))) else x)
      else els
    case None => els
  }

  /** The new solid Leg goes at the end; then each of its two ends, in
      order, is re-oriented against the course so far if it is a Start. */
  function AddLeg(els: seq<CourseElement>, from: Id, to: Id, legId: Id, m: Transcendentals): seq<CourseElement> {
    var withLeg := els + [Leg(legId, from, to, Solid)];
    OrientEnd(OrientEnd(withLeg, from, m), to, m)
  }

  lemma OrientEndKeeps(els: seq<CourseElement>, endId: Id, m: Transcendentals)
    requires UniqueIds(els)
    ensures var r := OrientEnd(els, endId, m);
      && SameShape(els, r)
      && SameButStartRotations(els, r)
      && (forall i | 0 <= i < |els| && els[i].id != endId :: r[i] == els[i])
      && (forall i | 0 <= i < |els| && els[i].id == endId && els[i].Start? ::
            r[i].rotationAngle == Some(RotationFor(endId, els[i].center, els, m)))
  {
    match Find(els, endId)
    case Some(e) =>
      if e.Start? {
        forall i | 0 <= i < |els| && els[i].id == endId ensures els[i] == e {
          assert els[i] in els;
          UniqueSameId(els, els[i], e);
        }
      }
    case None =>
  }

  /** The course after `AddLeg` is the course with the Leg appended, except
      that a Start at either end has the angle the final course calls for;
      nothing else changes. */
  lemma AddLegOrientsEnds(els: seq<CourseElement>, from: Id, to: Id, legId: Id, m: Transcendentals)
    requires UniqueIds(els) && FreshId(els, legId)
    ensures var withLeg, r := els + [Leg(legId, from, to, Solid)], AddLeg(els, from, to, legId, m);
      && SameShape(withLeg, r)
      && SameButStartRotations(withLeg, r)
      && (forall i | 0 <= i < |r| && r[i].id != from && r[i].id != to :: r[i] == withLeg[i])
      && (forall i | 0 <= i < |r| && r[i].Start? && (r[i].id == from || r[i].id == to) ::
            r[i].rotationAngle == Some(RotationFor(r[i].id, r[i].center, r, m)))
  {
    var withLeg := els + [Leg(legId, from, to, Solid)];
    AppendKeeps(els, Leg(legId, from, to, Solid));
    var mid := OrientEnd(withLeg, from, m);
    OrientEndKeeps(withLeg, from, m);
    UniqueTransfer(withLeg, mid);
    var r := OrientEnd(mid, to, m);
    OrientEndKeeps(mid, to, m);
    forall i | 0 <= i < |r| && r[i].Start? && (r[i].id == from || r[i].id == to)
      ensures r[i].rotationAngle == Some(RotationFor(r[i].id, r[i].center, r, m))
    {
      TwoStepOrient(withLeg, mid, r, from, to, m, i);
    }
  }

  /** Two re-orientation passes: the Start oriented by the first pass and
      left alone by the second still has the angle the final course calls
      for, because re-orienting never moves a target. */
  lemma TwoStepOrient(a: seq<CourseElement>, b: seq<CourseElement>, c: seq<CourseElement>,
                      from: Id, to: Id, m: Transcendentals, i: int)
    requires SameButStartRotations(a, b) && SameButStartRotations(b, c)
    requires 0 <= i < |c| && c[i].Start? && (c[i].id == from || c[i].id == to)
    requires forall k | 0 <= k < |a| && a[k].id == from && a[k].Start? ::
      b[k].rotationAngle == Some(RotationFor(from, a[k].center, a, m))
    requires forall k | 0 <= k < |b| && b[k].id != to :: c[k] == b[k]
    requires forall k | 0 <= k < |b| && b[k].id == to && b[k].Start? ::
      c[k].rotationAngle == Some(RotationFor(to, b[k].center, b, m))
    ensures c[i].rotationAngle == Some(RotationFor(c[i].id, c[i].center, c, m))
  {
    SameButStartRotationsTrans(a, b, c);
    if c[i].id == to {
      TargetIgnoresStartRotations(b, c, to);
    } else {
      TargetIgnoresStartRotations(a, c, from);
    }
  }

  lemma SameButStartRotationsTrans(a: seq<CourseElement>, b: seq<CourseElement>, c: seq<CourseElement>)
    requires SameButStartRotations(a, b) && SameButStartRotations(b, c)
    ensures SameButStartRotations(a, c)
  {
  }

  /** A Leg between two present point symbols, with a fresh id, leaves no
      Leg dangling, keeps ids unique and leaves the Controls as they were. */
  lemma AddLegKeepsCourseConsistent(els: seq<CourseElement>, from: Id, to: Id, legId: Id, m: Transcendentals)
    requires UniqueIds(els) && FreshId(els, legId)
    requires NoDanglingLegs(els) && HasPointWithId(els, from) && HasPointWithId(els, to)
    ensures var r := AddLeg(els, from, to, legId, m);
      && NoDanglingLegs(r)
      && UniqueIds(r)
      && ControlsOf(r) == ControlsOf(els)
  {
    var leg := Leg(legId, from, to, Solid);
    var withLeg := els + [leg];
    AppendKeeps(els, leg);
    ControlsOfAppend(els, leg);
    var mid := OrientEnd(withLeg, from, m);
    OrientEndKeeps(withLeg, from, m);
    UniqueTransfer(withLeg, mid);
    var r := OrientEnd(mid, to, m);
    OrientEndKeeps(mid, to, m);
    NoDanglingTransfer(withLeg, mid);
    NoDanglingTransfer(mid, r);
    UniqueTransfer(mid, r);
    ControlsOfOrientEnd(withLeg, from, m);
    ControlsOfOrientEnd(mid, to, m);
  }

  lemma ControlsOfOrientEnd(els: seq<CourseElement>, endId: Id, m: Transcendentals)
    requires UniqueIds(els)
    ensures ControlsOf(OrientEnd(els, endId, m)) == ControlsOf(els)
  {
    match Find(els, endId)
    case Some(e) =>
      if e.Start? {
        var f := (x: CourseElement) => if x.id == e.id then e.(rotationAngle := Some(RotationFor(e.id, e.center, els, m))) else x;
        forall x | x in els ensures f(x).Control? == x.Control? && (x.Control? ==> f(x) == x) {
          if x.id == e.id {
            UniqueSameId(els, x, e);
          }
        }
        ControlsOfMapFixing(els, f);
      }
    case None =>
  }

  /** A map that leaves every Control alone and makes no new Control keeps
      the Controls. */
  lemma {:induction false} ControlsOfMapFixing(els: seq<CourseElement>, f: CourseElement -> CourseElement)
    requires forall x | x in els :: f(x).Control? == x.Control? && (x.Control? ==> f(x) == x)
    ensures ControlsOf(MapElements(els, f)) == ControlsOf(els)
  {
    if |els| > 0 {
      assert forall x | x in els[1..] :: x in els;
      ControlsOfMapFixing(els[1..], f);
      assert MapElements(els, f)[1..] == MapElements(els[1..], f);
      assert els[0] in els;
    }
  }

  // ----- the Leg tool ----------------------------------------------------------

  /** A click of the Leg tool as App.tsx handles it. `legStart` is the first
      end picked so far and `clicked` the symbol the click landed on
      (`HitTest.PickConnectable`). A miss forgets the first end; with no
      first end (or an empty one) the click picks it; a click on a different
      symbol joins the two and forgets it; a second click on the same symbol
      does nothing. The first end is not checked against the course. */
  function LegClickAsWritten(s: CourseState, legStart: Option<Id>, clicked: Option<CourseElement>,
                             legId: Id, m: Transcendentals): (r: (CourseState, Option<Id>))
    ensures clicked.None? ==> r == (s, None)
    ensures r.0 != s ==>
      (&& clicked.Some? && legStart.Some? && legStart.value != clicked.value.id && r.1.None?
       && r.0 == s.(elements := AddLeg(s.elements, legStart.value, clicked.value.id, legId, m)))
    ensures clicked.Some? && (legStart.None? || legStart == Some("")) ==> r == (s, Some(clicked.value.id))
    ensures clicked.Some? && legStart.Some? && legStart.value != "" && legStart.value != clicked.value.id ==>
      r == (s.(elements := AddLeg(s.elements, legStart.value, clicked.value.id, legId, m)), None)
    ensures clicked.Some? && legStart == Some(clicked.value.id) && clicked.value.id != "" ==> r == (s, legStart)
  {
    match clicked
    case None => (s, None)
    case Some(c) =>
      match legStart
      case None => (s, Some(c.id))
      case Some(a) =>
        if a == "" then (s, Some(c.id))
        else if a != c.id then (s.(elements := AddLeg(s.elements, a, c.id, legId, m)), None)
        else (s, legStart)
  }

  /** The first end is kept across a deletion (and an undo), so a Leg can be
      drawn from a Start that is no longer in the course: pick Start `a`,
      delete it (it was selected when placed), click Control `b`. */
  lemma StaleLegStartLeavesDanglingLeg(m: Transcendentals)
    ensures var b := Control("b", Point(10.0, 0.0), 1, DefaultControlDescription(1));
      var a := Start("a", Point(0.0, 0.0), Some(0.0));
      var s0 := CourseState([b, a], Some("a"), None);
      var (s1, first) := LegClickAsWritten(s0, None, Some(a), "l", m);
      var s2 := DeleteSelected(s1, m);
      var (s3, _) := LegClickAsWritten(s2, first, Some(b), "l", m);
      && NoDanglingLegs(s0.elements)
      && first == Some("a")
      && s2.elements == [b]
      && s3.elements == [b, Leg("l", "a", "b", Solid)]
      && !NoDanglingLegs(s3.elements)
  {
    var b := Control("b", Point(10.0, 0.0), 1, DefaultControlDescription(1));
    var a := Start("a", Point(0.0, 0.0), Some(0.0));
    var s0 := CourseState([b, a], Some("a"), None);
    assert NoDanglingLegs(s0.elements);
    DeleteLoneStart(b, a, m);
    LegToMissingStart(b, m);
  }

  /** Deleting a Start no Leg touches leaves the other element alone. */
  lemma DeleteLoneStart(b: CourseElement, a: CourseElement, m: Transcendentals)
    requires b.Control? && b.id == "b" && a.Start? && a.id == "a"
    ensures DeleteElement([b, a], "a", m) == [b]
  {
    assert Find([b, a], "a") == Some(a);
    assert WithoutId([b, a], "a") == [b] by {
      assert [b, a][1..] == [a] && [a][1..] == [];
      assert WithoutId([a], "a") == [];
      assert WithoutId([b, a], "a") == [b] + WithoutId([a], "a");
    }
    assert Survivors([b, a], "a") == [b] by {
      assert LegIdsReferencing([b], "a") == {};
      assert WithoutIds([b], {}) == [b];
    }
    assert Dirty([b, a], "a") == {};
  }

  /** A Leg from an id the course lacks to a Control is appended as it is,
      and dangles. */
  lemma LegToMissingStart(b: CourseElement, m: Transcendentals)
    requires b.Control? && b.id == "b"
    ensures AddLeg([b], "a", "b", "l", m) == [b, Leg("l", "a", "b", Solid)]
    ensures !NoDanglingLegs([b, Leg("l", "a", "b", Solid)])
  {
    var els := [b, Leg("l", "a", "b", Solid)];
    assert Find(els, "a").None?;
    assert Find(els, "b") == Some(b);
    assert !HasPointWithId(els, "a");
  }

  /** The first end still names a point symbol of the course. */
  predicate StillPresent(els: seq<CourseElement>, legStart: Id) {
    Find(els, legStart).Some? && Find(els, legStart).value.HasCenter()
  }

  /** The Leg tool click with the first end checked: a first end that no
      longer names a point symbol of the course counts as none, so the
      click picks a new one. Otherwise as `LegClickAsWritten`. */
  function LegClick(s: CourseState, legStart: Option<Id>, clicked: Option<CourseElement>,
                    legId: Id, m: Transcendentals): (r: (CourseState, Option<Id>))
    ensures clicked.None? ==> r == (s, None)
    ensures r.0 != s ==>
      (&& clicked.Some? && legStart.Some? && legStart.value != clicked.value.id
       && StillPresent(s.elements, legStart.value) && r.1.None?
       && r.0 == s.(elements := AddLeg(s.elements, legStart.value, clicked.value.id, legId, m)))
    ensures legStart.Some? && StillPresent(s.elements, legStart.value) ==>
      r == LegClickAsWritten(s, legStart, clicked, legId, m)
    ensures clicked.Some? && (legStart.None? || legStart == Some("") || !StillPresent(s.elements, legStart.value)) ==>
      r == (s, Some(clicked.value.id))
    ensures && clicked.Some? && legStart.Some? && legStart.value != "" && legStart.value != clicked.value.id
            && StillPresent(s.elements, legStart.value) ==>
      r == (s.(elements := AddLeg(s.elements, legStart.value, clicked.value.id, legId, m)), None)
  {
    match clicked
    case None => (s, None)
    case Some(c) =>
      match legStart
      case None => (s, Some(c.id))
      case Some(a) =>
        if a == "" || !StillPresent(s.elements, a) then (s, Some(c.id))
        else if a != c.id then (s.(elements := AddLeg(s.elements, a, c.id, legId, m)), None)
        else (s, legStart)
  }

  /** With the first end checked, a Leg tool click on a symbol of the
      course never leaves a Leg dangling, keeps ids unique (given a fresh Leg
      id) and leaves the Controls as they were. */
  lemma LegClickKeepsCourseConsistent(s: CourseState, legStart: Option<Id>, clicked: Option<CourseElement>,
                                      legId: Id, m: Transcendentals)
    requires UniqueIds(s.elements) && NoDanglingLegs(s.elements) && FreshId(s.elements, legId)
    requires clicked.Some? ==> clicked.value in s.elements && clicked.value.HasCenter()
    ensures var r := LegClick(s, legStart, clicked, legId, m).0;
      NoDanglingLegs(r.elements) && UniqueIds(r.elements) && ControlsOf(r.elements) == ControlsOf(s.elements)
  {
    var r := LegClick(s, legStart, clicked, legId, m).0;
    if r != s {
      var a, c := legStart.value, clicked.value;
      assert Find(s.elements, a).value in s.elements;
      assert HasPointWithId(s.elements, a);
      assert HasPointWithId(s.elements, c.id);
      AddLegKeepsCourseConsistent(s.elements, a, c.id, legId, m);
    }
  }

  // ----- moving ----------------------------------------------------------------

  /** Where a dragged element goes: a new centre for a point symbol, a new
      outline for an Area. */
  datatype Position = At(p: Point) | Outline(points: seq<Point>)

  /** `updateElementPosition` on one element. A Start is re-oriented
      against the course with itself moved (and its old angle). */
  function MoveOne(el: CourseElement, elementId: Id, newPos: Position, els: seq<CourseElement>,
                   m: Transcendentals): CourseElement
  {
    if el.id != elementId then el
    else match newPos
      case Outline(ps) => if el.Area? then el.(points := ps) else el
      case At(p) =>
        if el.HasCenter() then
          var moved := el.(center := p);
          if moved.Start? then
            var current := MapElements(els, (e: CourseElement) => if e.id == elementId then moved else e);
            moved.(rotationAngle := Some(RotationFor(moved.id, p, current, m)))
          else moved
        else el
  }

  /** `updateElementPosition`: the element with `elementId` takes the new
      position if the position suits its kind. */
  function UpdateElementPosition(els: seq<CourseElement>, elementId: Id, newPos: Position,
                                 m: Transcendentals): (r: seq<CourseElement>)
    ensures |r| == |els|
    ensures forall i | 0 <= i < |els| :: SameKindAndId(els[i], r[i])
    ensures forall i | 0 <= i < |els| && els[i].id != elementId :: r[i] == els[i]
    ensures forall i | 0 <= i < |els| && els[i].id == elementId ::
      match newPos
      case Outline(ps) => r[i] == (if els[i].Area? then els[i].(points := ps) else els[i])
      case At(p) =>
        && (els[i].HasCenter() ==> r[i].HasCenter() && r[i].center == p)
        && (!els[i].Start? ==> r[i] == (if els[i].HasCenter() then els[i].(center := p) else els[i]))
  {
    MapElements(els, el => MoveOne(el, elementId, newPos, els, m))
  }

  /** Same kind and id, and a Leg unchanged: what moving, renumbering and
      re-orienting keep. */
  predicate SameKindAndId(x: CourseElement, y: CourseElement) {
    && x.id == y.id
    && x.Start? == y.Start? && x.Control? == y.Control? && x.Finish? == y.Finish?
    && x.Leg? == y.Leg? && x.Area? == y.Area?
    && (x.Leg? ==> x == y)
    && (x.Control? ==> x.number == y.number && x.description == y.description)
  }

  ghost predicate SameSkeleton(a: seq<CourseElement>, b: seq<CourseElement>) {
    |a| == |b| && forall i | 0 <= i < |a| :: SameKindAndId(a[i], b[i])
  }

  lemma SkeletonHasPoint(a: seq<CourseElement>, b: seq<CourseElement>, x: Id)
    requires SameSkeleton(a, b) && HasPointWithId(a, x)
    ensures HasPointWithId(b, x)
  {
    var p :| p in a && p.HasCenter() && p.id == x;
    var i :| 0 <= i < |a| && a[i] == p;
    assert b[i] in b;
  }

  /** Courses with the same skeleton agree on unique ids, dangling Legs and
      dense numbering. */
  lemma SkeletonKeeps(a: seq<CourseElement>, b: seq<CourseElement>)
    requires SameSkeleton(a, b)
    ensures UniqueIds(a) ==> UniqueIds(b)
    ensures NoDanglingLegs(a) ==> NoDanglingLegs(b)
    ensures DenseNumbering(a) ==> DenseNumbering(b)
  {
    if NoDanglingLegs(a) {
      forall l | l in b && l.Leg?
        ensures HasPointWithId(b, l.fromElementId) && HasPointWithId(b, l.toElementId)
      {
        var i :| 0 <= i < |b| && b[i] == l;
        assert a[i] == l && a[i] in a;
        SkeletonHasPoint(a, b, l.fromElementId);
        SkeletonHasPoint(a, b, l.toElementId);
      }
    }
    SkeletonControls(a, b);
  }

  lemma {:induction false} SkeletonControls(a: seq<CourseElement>, b: seq<CourseElement>)
    requires SameSkeleton(a, b)
    ensures |ControlsOf(a)| == |ControlsOf(b)|
    ensures forall i | 0 <= i < |ControlsOf(a)| :: ControlsOf(a)[i].number == ControlsOf(b)[i].number
  {
    if |a| > 0 {
      assert SameSkeleton(a[1..], b[1..]) by {
        forall i | 0 <= i < |a| - 1 ensures SameKindAndId(a[1..][i], b[1..][i]) {
          assert a[1..][i] == a[i + 1] && b[1..][i] == b[i + 1];
        }
      }
      SkeletonControls(a[1..], b[1..]);
      SkeletonControlsStep(a, b);
    }
  }

  /** The step of `SkeletonControls`: equal numbers on the tails and the
      same kind at the head give equal numbers on the whole. */
  lemma SkeletonControlsStep(a: seq<CourseElement>, b: seq<CourseElement>)
    requires |a| > 0 && |b| > 0 && SameKindAndId(a[0], b[0])
    requires |ControlsOf(a[1..])| == |ControlsOf(b[1..])|
    requires forall i | 0 <= i < |ControlsOf(a[1..])| :: ControlsOf(a[1..])[i].number == ControlsOf(b[1..])[i].number
    ensures |ControlsOf(a)| == |ControlsOf(b)|
    ensures forall i | 0 <= i < |ControlsOf(a)| :: ControlsOf(a)[i].number == ControlsOf(b)[i].number
  {
    var ca, cb := ControlsOf(a), ControlsOf(b);
    var ta, tb := ControlsOf(a[1..]), ControlsOf(b[1..]);
    if a[0].Control? {
      assert ca == [a[0]] + ta && cb == [b[0]] + tb;
      forall i | 0 <= i < |ca| ensures ca[i].number == cb[i].number {
        if i > 0 {
          assert ca[i] == ta[i - 1] && cb[i] == tb[i - 1];
        }
      }
    } else {
      assert ca == ta && cb == tb;
    }
  }

  /** A move keeps the course's skeleton, so it keeps ids unique, Legs
      attached and the numbering dense. */
  lemma MoveKeepsCourseConsistent(els: seq<CourseElement>, elementId: Id, newPos: Position, m: Transcendentals)
    ensures var r := UpdateElementPosition(els, elementId, newPos, m);
      && (UniqueIds(els) ==> UniqueIds(r))
      && (NoDanglingLegs(els) ==> NoDanglingLegs(r))
      && (DenseNumbering(els) ==> DenseNumbering(r))
  {
    SkeletonKeeps(els, UpdateElementPosition(els, elementId, newPos, m));
  }

  /** A moved Start has the angle the course after the move calls for. */
  lemma MoveOrientsMovedStart(els: seq<CourseElement>, elementId: Id, p: Point, m: Transcendentals)
    requires UniqueIds(els)
    ensures var r := UpdateElementPosition(els, elementId, At(p), m);
      forall i | 0 <= i < |r| && r[i].Start? && r[i].id == elementId ::
        r[i].rotationAngle == Some(RotationFor(elementId, p, r, m))
  {
    var r := UpdateElementPosition(els, elementId, At(p), m);
    forall i | 0 <= i < |r| && r[i].Start? && r[i].id == elementId
      ensures r[i].rotationAngle == Some(RotationFor(elementId, p, r, m))
    {
      MovedStartAgainstFinal(els, elementId, p, m, i);
    }
  }

  lemma MovedStartAgainstFinal(els: seq<CourseElement>, elementId: Id, p: Point, m: Transcendentals, i: int)
    requires UniqueIds(els)
    requires 0 <= i < |els| && els[i].Start? && els[i].id == elementId
    ensures var r := UpdateElementPosition(els, elementId, At(p), m);
      r[i].rotationAngle == Some(RotationFor(elementId, p, r, m))
  {
    var f := el => MoveOne(el, elementId, At(p), els, m);
    var r := MapElements(els, f);
    var moved := Start(elementId, p, els[i].rotationAngle);
    var current := MapElements(els, (e: CourseElement) => if e.id == elementId then moved else e);
    assert f(els[i]) == moved.(rotationAngle := Some(RotationFor(elementId, p, current, m)));
    forall k | 0 <= k < |els| && k != i ensures current[k] == els[k] && r[k] == els[k] {
      assert els[k].id != elementId;
    }
    assert SameButStartRotations(current, r);
    TargetIgnoresStartRotations(current, r, elementId);
  }

  /** A Start joined by one Leg to one Control points at that Control. */
  lemma SingleLegTarget(start: CourseElement, c: CourseElement, leg: CourseElement)
    requires start.Start? && start.id == "s"
    requires c.Control? && c.id == "c"
    requires leg == Leg("l", "s", "c", Solid)
    ensures OrientationTarget("s", [start, c, leg]) == Some(c)
  {
    var els := [start, c, leg];
    assert Find(els, "c") == Some(c) by {
      assert els[1..] == [c, leg];
    }
    assert els[1..] == [c, leg] && [c, leg][1..] == [leg] && [leg][1..] == [];
    assert Connected([leg], "s", els, ControlKind) == [c];
    assert Connected([c, leg], "s", els, ControlKind) == [c];
  }

  /** Moving a Control re-orients no Start: a Start pointing at it before the
      move no longer points at it afterwards, whenever `atan2` tells the old
      and the new direction apart. */
  lemma MovingControlLeavesStartStale(start: CourseElement, c: CourseElement, p: Point, m: Transcendentals)
    requires start.Start? && start.id == "s" && c.Control? && c.id == "c"
    requires start.rotationAngle == Some(m.atan2(c.center.y - start.center.y, c.center.x - start.center.x) + HalfPi)
    requires m.atan2(c.center.y - start.center.y, c.center.x - start.center.x)
          != m.atan2(p.y - start.center.y, p.x - start.center.x)
    ensures var els := [start, c, Leg("l", "s", "c", Solid)];
      StartsOriented(els, m) && !StartsOriented(UpdateElementPosition(els, "c", At(p), m), m)
  {
    var leg := Leg("l", "s", "c", Solid);
    var c2 := Control(c.id, p, c.number, c.description);
    MoveControlExample(start, c, leg, c2, p, m);
    SingleLegOriented(start, c, leg, m);
    SingleLegOriented(start, c2, leg, m);
  }

  /** In a course of one Start, one Control and a Leg between them, the
      Start is oriented exactly when its angle is the one toward the Control. */
  lemma SingleLegOriented(start: CourseElement, c: CourseElement, leg: CourseElement, m: Transcendentals)
    requires start.Start? && start.id == "s"
    requires c.Control? && c.id == "c"
    requires leg == Leg("l", "s", "c", Solid)
    ensures StartsOriented([start, c, leg], m) <==>
      start.rotationAngle == Some(m.atan2(c.center.y - start.center.y, c.center.x - start.center.x) + HalfPi)
  {
    var els := [start, c, leg];
    SingleLegTarget(start, c, leg);
    assert RotationFor("s", start.center, els, m) == m.atan2(c.center.y - start.center.y, c.center.x - start.center.x) + HalfPi;
    assert forall i | 0 <= i < 3 && els[i].Start? :: i == 0;
  }

  lemma MoveControlExample(start: CourseElement, c: CourseElement, leg: CourseElement, c2: CourseElement,
                           p: Point, m: Transcendentals)
    requires start.Start? && start.id == "s" && leg.Leg? && leg.id == "l"
    requires c.Control? && c.id == "c" && c2 == Control(c.id, p, c.number, c.description)
    ensures UpdateElementPosition([start, c, leg], "c", At(p), m) == [start, c2, leg]
  {
    var r := UpdateElementPosition([start, c, leg], "c", At(p), m);
    assert r[0] == start && r[2] == leg;
    assert r[1] == c2;
  }
}
