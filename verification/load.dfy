/** `handleLoadCourse` of App.tsx once the file has been parsed: each saved
    element is cleaned up, then every Start is re-oriented against the whole
    loaded course. Reading the file and parsing JSON are not modelled; the
    parsed value arrives as a `SavedCourse`. */
module CourseLoading {
  import opened Wrappers
  import opened CourseModel
  import opened Numerics
  import opened Orientation
  import opened Cascade

  /** A saved element as parsed. A Control may lack its description and a
      Start its angle (older files); the size fields older files carried
      are dropped by the parse. */
  datatype SavedElement =
    | SavedStart(id: Id, center: Point, rotationAngle: Option<real>)
    | SavedControl(id: Id, center: Point, number: int, description: Option<ControlDescription>)
    | SavedFinish(id: Id, center: Point)
    | SavedLeg(id: Id, fromElementId: Id, toElementId: Id, style: LegStyle)
    | SavedArea(id: Id, points: seq<Point>, kind: AreaKind)

  /** The parsed file: `elements` is `None` when the file has no element
      array. */
  datatype SavedCourse = SavedCourse(elements: Option<seq<SavedElement>>, mapFileName: Option<string>)

  /** A missing description becomes the default one for the Control's
      number; a missing angle becomes 0. */
  function Sanitize(e: SavedElement): (r: CourseElement)
    ensures r.id == e.id
    ensures e.SavedStart? <==> r.Start?
    ensures e.SavedControl? <==> r.Control?
    ensures r.Start? ==> r.center == e.center && r.rotationAngle.Some?
    ensures r.Control? ==>
      (&& r.center == e.center && r.number == e.number
       && r.description == e.description.GetOr(DefaultControlDescription(e.number)))
    ensures e.SavedFinish? ==> r == Finish(e.id, e.center)
    ensures e.SavedLeg? ==> r == Leg(e.id, e.fromElementId, e.toElementId, e.style)
    ensures e.SavedArea? ==> r == Area(e.id, e.points, e.kind)
  {
    match e
    case SavedStart(id, c, a) => Start(id, c, Some(a.GetOr(0.0)))
    case SavedControl(id, c, n, d) =>
      Control(id, c, n, match d case Some(x) => x case None => DefaultControlDescription(n))
    case SavedFinish(id, c) => Finish(id, c)
    case SavedLeg(id, f, t, st) => Leg(id, f, t, st)
    case SavedArea(id, ps, k) => Area(id, ps, k)
  }

  /** A Start gets the angle `all` calls for; anything else is kept. */
  function OrientAgainst(el: CourseElement, all: seq<CourseElement>, m: Transcendentals): CourseElement {
    if el.Start? then el.(rotationAngle := Some(RotationFor(el.id, el.center, all, m))) else el
  }

  /** The loaded elements: sanitised, then every Start re-oriented against
      the sanitised course. */
  function LoadElements(saved: seq<SavedElement>, m: Transcendentals): (r: seq<CourseElement>)
    ensures |r| == |saved|
  {
    var sanitized := MapSaved(saved);
    MapElements(sanitized, el => OrientAgainst(el, sanitized, m))
  }

  function MapSaved(saved: seq<SavedElement>): (r: seq<CourseElement>)
    ensures |r| == |saved| && forall i | 0 <= i < |saved| :: r[i] == Sanitize(saved[i])
  {
    seq(|saved|, i requires 0 <= i < |saved| => Sanitize(saved[i]))
  }

  /** The snapshot a load starts the history from: nothing selected and the
      file's map name; no snapshot for a file without an element array. */
  function LoadCourse(saved: SavedCourse, m: Transcendentals): (r: Option<CourseState>)
    ensures r.None? <==> saved.elements.None?
    ensures r.Some? ==> r.value == CourseState(LoadElements(saved.elements.value, m), None, saved.mapFileName)
  {
    match saved.elements
    case None => None
    case Some(els) => Some(CourseState(LoadElements(els, m), None, saved.mapFileName))
  }

  /** Every loaded Start points where the loaded course says; every element
      keeps its id and kind, a Control its number and (if saved) its
      description, and the rest are taken as saved. */
  lemma LoadOrientsEveryStart(saved: seq<SavedElement>, m: Transcendentals)
    ensures var r := LoadElements(saved, m);
      && StartsOriented(r, m)
      && forall i | 0 <= i < |r| ::
           && r[i].id == saved[i].id
           && (r[i].Start? <==> saved[i].SavedStart?)
           && (r[i].Start? ==> r[i].center == saved[i].center)
           && (!r[i].Start? ==> r[i] == Sanitize(saved[i]))
  {
    var sanitized := MapSaved(saved);
    var r := LoadElements(saved, m);
    assert SameButStartRotations(sanitized, r);
    forall i | 0 <= i < |r| && r[i].Start?
      ensures r[i].rotationAngle == Some(RotationFor(r[i].id, r[i].center, r, m))
    {
      TargetIgnoresStartRotations(sanitized, r, r[i].id);
    }
  }

  /** What saving writes for an element: every field as it is. */
  function Unsanitize(e: CourseElement): (r: SavedElement)
    ensures r.id == e.id
  {
    match e
    case Start(id, c, a) => SavedStart(id, c, a)
    case Control(id, c, n, d) => SavedControl(id, c, n, Some(d))
    case Finish(id, c) => SavedFinish(id, c)
    case Leg(id, f, t, st) => SavedLeg(id, f, t, st)
    case Area(id, ps, k) => SavedArea(id, ps, k)
  }

  /** `handleSaveCourseData`'s content: the elements and the map name. */
  function Save(s: CourseState): (r: SavedCourse)
    ensures r.elements.Some? && |r.elements.value| == |s.elements|
  {
    SavedCourse(Some(seq(|s.elements|, i requires 0 <= i < |s.elements| => Unsanitize(s.elements[i]))), s.mapFileName)
  }

  /** Loading what was saved gives the course back, with the selection
      cleared, when every Start was oriented. */
  lemma LoadAfterSave(s: CourseState, m: Transcendentals)
    requires StartsOriented(s.elements, m)
    ensures LoadCourse(Save(s), m) == Some(s.(selectedElementId := None))
  {
    var saved := Save(s).elements.value;
    var sanitized := MapSaved(saved);
    assert sanitized == s.elements;
    var r := LoadElements(saved, m);
    assert r == s.elements;
  }
}
