/** The editor as App.tsx drives it: the course history of `useHistory`,
    the Leg tool's first end and the Area draft, and the user actions that
    write to the history. Dragging is where the program and the evident
    intention part: the program amends the shown snapshot while dragging
    and commits a copy at the end, so undo does not bring the element back.
    Both versions are here, and so are both editors: `StepAsWritten` as the
    program has it and `Step` with its two findings corrected. */
module Session {
  import opened Wrappers
  import opened CourseModel
  import opened Numerics
  import opened Orientation
  import opened Constants
  import opened HitTest
  import opened Cascade
  import opened CascadeProperties
  import opened Editing
  import opened CourseLoading
  import opened UndoHistory

  // ----- dragging ------------------------------------------------------------

  /** One mouse move of a drag: `updateElementPosition` on the shown snapshot. */
  function MoveUpdate(id: Id, pos: Position, m: Transcendentals): Update<CourseState> {
    Transform((s: CourseState) => s.(elements := UpdateElementPosition(s.elements, id, pos, m)))
  }

  function MoveUpdates(id: Id, moves: seq<Position>, m: Transcendentals): (us: seq<Update<CourseState>>)
    ensures |us| == |moves|
    ensures forall k | 0 <= k < |moves| :: us[k] == MoveUpdate(id, moves[k], m)
  {
    seq(|moves|, k requires 0 <= k < |moves| => MoveUpdate(id, moves[k], m))
  }

  /** The mouse-up correction: a dragged Start whose stored angle differs from
      the one the course calls for gets that angle. */
  function FixStart(s: CourseState, id: Id, m: Transcendentals): (r: CourseState)
    ensures r.selectedElementId == s.selectedElementId && r.mapFileName == s.mapFileName
    ensures |r.elements| == |s.elements|
    ensures forall i | 0 <= i < |s.elements| ::
      || r.elements[i] == s.elements[i]
      || (&& s.elements[i].Start? && s.elements[i].id == id
          && r.elements[i].Start? && r.elements[i].id == id && r.elements[i].center == s.elements[i].center)
    ensures UniqueIds(s.elements) && Find(s.elements, id).Some? && Find(s.elements, id).value.Start? ==>
      var e := Find(s.elements, id).value;
      forall i | 0 <= i < |r.elements| && r.elements[i].Start? && r.elements[i].id == id ::
        r.elements[i].rotationAngle == Some(RotationFor(id, e.center, s.elements, m))
  {
    match Find(s.elements, id)
    case Some(e) =>
      if e.Start? && Some(RotationFor(e.id, e.center, s.elements, m)) != e.rotationAngle then
        var angle := RotationFor(e.id, e.center, s.elements, m);
        s.(elements := MapElements(s.elements, (x: CourseElement) => if x.id == id && x.Start? then x.(rotationAngle := Some(angle)) else x))
      else s
    case None => s
  }

  function RotationFix(id: Id, m: Transcendentals): Update<CourseState> {
    Transform((s: CourseState) => FixStart(s, id, m))
  }

  /** Pressing on an element with the select tool selects it, as a commit,
      when it was not selected already. */
  function SelectForDrag(h: History<CourseState>, id: Id): (r: History<CourseState>)
    requires Valid(h)
    ensures Valid(r)
    ensures Current(h).selectedElementId == Some(id) ==> r == h
    ensures Current(h).selectedElementId != Some(id) ==> r == Commit(h, Transform((s: CourseState) => s.(selectedElementId := Some(id))))
  {
    if Current(h).selectedElementId != Some(id) then Commit(h, Transform((s: CourseState) => s.(selectedElementId := Some(id))))
    else h
  }

  /** A press of the select tool on empty space: a selection, if there was
      one, is cleared as a commit. */
  function Deselect(h: History<CourseState>): (r: History<CourseState>)
    requires Valid(h)
    ensures Valid(r)
    ensures Current(r) == Current(h).(selectedElementId := None)
    ensures Current(h).selectedElementId.None? ==> r == h
    ensures Current(h).selectedElementId.Some? ==> CanUndo(r) && Current(Undo(r)) == Current(h)
  {
    if Current(h).selectedElementId.Some? then
      var r := Commit(h, Transform((s: CourseState) => s.(selectedElementId := None)));
      UndoAfterCommit(h, Transform((s: CourseState) => s.(selectedElementId := None)));
      r
    else h
  }

  /** A press on `id` starts a move only when the element is a point symbol
      or an Area: a Leg has no position to drag. Mouse moves and mouse-up
      look the element up by id in the shown course. */
  predicate Movable(s: CourseState, id: Id) {
    Find(s.elements, id).Some? && !Find(s.elements, id).value.Leg?
  }

  /** A drag of element `id` through `moves` as App.tsx performs it: select,
      and for a movable element amend per move and, on release, commit the
      mouse-up correction (a copy of the shown snapshot when there is
      nothing to correct, even when the mouse did not move). A press on a
      Leg only selects. */
  function DragAsWritten(h: History<CourseState>, id: Id, moves: seq<Position>, m: Transcendentals)
    : (r: History<CourseState>)
    requires Valid(h)
    ensures Valid(r)
    ensures !Movable(Current(h), id) ==> r == SelectForDrag(h, id)
    ensures Movable(Current(h), id) ==> |r.log| == SelectForDrag(h, id).index + 2 && CanUndo(r)
  {
    var selected := SelectForDrag(h, id);
    if !Movable(Current(h), id) then selected
    else Commit(Amends(selected, MoveUpdates(id, moves, m)), RotationFix(id, m))
  }

  /** With the element already selected, undo after a drag shows the course
      as dragged (before the mouse-up correction), and the snapshot from
      before the drag is gone from the log. */
  lemma DragAsWrittenUndoShowsDrag(h: History<CourseState>, id: Id, moves: seq<Position>, m: Transcendentals)
    requires Valid(h) && Current(h).selectedElementId == Some(id) && Movable(Current(h), id)
    ensures var r := DragAsWritten(h, id, moves, m);
      && Current(Undo(r)) == Current(Amends(h, MoveUpdates(id, moves, m)))
      && |r.log| == h.index + 2
      && r.log[..h.index] == h.log[..h.index]
  {
    assert SelectForDrag(h, id) == h;
    UndoAfterAmendsCommit(h, MoveUpdates(id, moves, m), RotationFix(id, m));
  }

  /** A Finish dragged from (0, 0) to (5, 5) on a fresh history: undo still
      shows it at (5, 5), and no snapshot left in the log has it at (0, 0). */
  lemma DragUndoCounterexample(m: Transcendentals)
    ensures var before := CourseState([Finish("f", Point(0.0, 0.0))], Some("f"), None);
      var after := CourseState([Finish("f", Point(5.0, 5.0))], Some("f"), None);
      var r := DragAsWritten(New(before), "f", [At(Point(5.0, 5.0))], m);
      && Current(r) == after
      && Current(Undo(r)) == after
      && r.log == [after, after]
  {
    var before := CourseState([Finish("f", Point(0.0, 0.0))], Some("f"), None);
    var after := CourseState([Finish("f", Point(5.0, 5.0))], Some("f"), None);
    var h := New(before);
    var moves := [At(Point(5.0, 5.0))];
    assert Find(before.elements, "f") == Some(Finish("f", Point(0.0, 0.0)));
    assert UpdateElementPosition(before.elements, "f", At(Point(5.0, 5.0)), m) == after.elements;
    var us := MoveUpdates("f", moves, m);
    assert Amends(h, us) == Amends(Amend(h, us[0]), us[1..]);
    assert Amend(h, us[0]) == History([after], 0, before);
    assert Find(after.elements, "f") == Some(Finish("f", Point(5.0, 5.0)));
    assert FixStart(after, "f", m) == after;
  }

  /** The corrected drag: for a movable element, a copy of the shown
      snapshot is committed first and every change, the mouse-up correction
      included, amends that copy. Without a move this is the program's drag;
      with moves it shows the same course, and only the log differs. */
  function Drag(h: History<CourseState>, id: Id, moves: seq<Position>, m: Transcendentals)
    : (r: History<CourseState>)
    requires Valid(h)
    ensures Valid(r)
    ensures !Movable(Current(h), id) ==> r == SelectForDrag(h, id)
    ensures |moves| == 0 ==> r == DragAsWritten(h, id, moves, m)
    ensures Current(r) == Current(DragAsWritten(h, id, moves, m))
  {
    var selected := SelectForDrag(h, id);
    if !Movable(Current(h), id) then selected
    else
      var us := MoveUpdates(id, moves, m);
      CopyFirst(selected, us, RotationFix(id, m));
      Amends(Commit(selected, Identity()), us + [RotationFix(id, m)])
  }

  /** Committing a copy before the amends instead of after them shows the
      same snapshot at the end, and is the same history when there are no
      amends. */
  lemma CopyFirst(h: History<CourseState>, us: seq<Update<CourseState>>, last: Update<CourseState>)
    requires Valid(h)
    ensures var copyFirst, copyLast := Amends(Commit(h, Identity()), us + [last]), Commit(Amends(h, us), last);
      && Current(copyFirst) == Current(copyLast)
      && (us == [] ==> copyFirst == copyLast)
  {
    var c := Commit(h, Identity());
    AmendsShowAll(c, us + [last]);
    AmendsShowAll(h, us);
    ApplyAllSnoc(us, last, Current(h));
    if us == [] {
      assert us + [last] == [last];
      assert Amends(c, [last]) == Amend(c, last);
      var r := Commit(h, last);
      assert Amend(c, last).log == r.log by {
        assert c.log[..h.index + 1] == r.log[..h.index + 1];
      }
    }
  }

  /** Undo after a corrected drag of a movable element shows the course as it
      was just before the drag began (with the element selected), and redo
      brings the drag back. */
  lemma DragUndoRestores(h: History<CourseState>, id: Id, moves: seq<Position>, m: Transcendentals)
    requires Valid(h) && Movable(Current(h), id)
    ensures var selected, r := SelectForDrag(h, id), Drag(h, id, moves, m);
      && Current(Undo(r)) == Current(selected)
      && Redo(Undo(r)) == r
      && |r.log| == selected.index + 2
  {
    var selected := SelectForDrag(h, id);
    var c := Commit(selected, Identity());
    var r := Drag(h, id, moves, m);
    assert c.log[selected.index] == c.log[..selected.index + 1][selected.index];
  }

  // ----- the editor ------------------------------------------------------------

  /** What the course editor holds between events: the course history, the
      Leg tool's first end and the corners of an Area being drawn. */
  datatype Editor = Editor(history: History<CourseState>, legStart: Option<Id>, draft: seq<Point>)

  /** The user actions that write to the course. Ids for new elements come
      with the action. A select-tool press carries the mouse positions the
      drag that follows it moves the element to (none for a plain click). */
  datatype Action =
    | PlaceStartAt(id: Id, at: Point)
    | PlaceControlAt(id: Id, at: Point)
    | PlaceFinishAt(id: Id, at: Point)
    | LegToolClick(point: Point, mapScale: real, legId: Id)
    | AreaClick(at: Point)
    | AreaEnter(kind: AreaKind, id: Id)
    | DeleteKey
    | SelectPress(point: Point, mapScale: real, moves: seq<Position>)
    | UndoKey
    | RedoKey
    | LoadFile(saved: SavedCourse)

  /** An Action the program could produce: the zoom is positive. */
  predicate WellFormed(a: Action) {
    (a.LegToolClick? ==> a.mapScale > 0.0) && (a.SelectPress? ==> a.mapScale > 0.0)
  }

  /** The program's editor, and the editor with both findings corrected. */
  datatype Variant = AsWritten | Corrected

  /** A Leg tool click: the course changes only when a Leg is added, and
      that is a commit. */
  function LegToolStep(v: Variant, e: Editor, point: Point, scale: real, legId: Id,
                       scales: SymbolScales, m: Transcendentals): (r: Editor)
    requires Valid(e.history) && scale > 0.0
    ensures Valid(r.history) && r.draft == e.draft
  {
    var s := Current(e.history);
    var clicked := PickConnectable(point, s.elements, scale, scales);
    var click :=
      if v.AsWritten? then LegClickAsWritten(s, e.legStart, clicked, legId, m)
      else LegClick(s, e.legStart, clicked, legId, m);
    if click.0 == s then e.(legStart := click.1)
    else Editor(Commit(e.history, Replace(click.0)), click.1, e.draft)
  }

  /** One action of the editor in either variant. They differ in the Leg
      tool (`LegClickAsWritten` or the checked `LegClick`) and the drag
      (`DragAsWritten` or `Drag`). A select-tool press selects what
      `getElementAtPoint` finds (an element with an empty id counts as
      nothing) and drags it; on empty space it clears the selection. */
  function StepIn(v: Variant, e: Editor, a: Action, scales: SymbolScales, m: Transcendentals): (r: Editor)
    requires Valid(e.history) && WellFormed(a)
    ensures Valid(r.history)
  {
    var h := e.history;
    var s := Current(h);
    match a
    case PlaceStartAt(id, p) => e.(history := Commit(h, Replace(PlaceStart(s, id, p))))
    case PlaceControlAt(id, p) => e.(history := Commit(h, Replace(PlaceControl(s, id, p))))
    case PlaceFinishAt(id, p) => e.(history := Commit(h, Replace(PlaceFinish(s, id, p))))
    case LegToolClick(point, scale, legId) => LegToolStep(v, e, point, scale, legId, scales, m)
    case AreaClick(p) => e.(draft := e.draft + [p])
    case AreaEnter(kind, id) =>
      var (next, draft) := CloseArea(s, e.draft, kind, id);
      if next == s then e.(draft := draft)
      else Editor(Commit(h, Replace(next)), e.legStart, draft)
    case DeleteKey =>
      if s.selectedElementId.None? || s.selectedElementId == Some("") then e
      else e.(history := Commit(h, Replace(DeleteSelected(s, m))))
    case SelectPress(point, scale, moves) =>
      var clicked := ElementAtPoint(point, s.elements, scale, s.elements, scales);
      if clicked.None? || clicked.value.id == "" then e.(history := Deselect(h))
      else if v.AsWritten? then e.(history := DragAsWritten(h, clicked.value.id, moves, m))
      else e.(history := Drag(h, clicked.value.id, moves, m))
    case UndoKey => e.(history := Undo(h))
    case RedoKey => e.(history := Redo(h))
    case LoadFile(saved) =>
      match LoadCourse(saved, m)
      case Some(loaded) => e.(history := Reset(h, loaded))
      case None => e
  }

  /** The editor as App.tsx has it. */
  function StepAsWritten(e: Editor, a: Action, scales: SymbolScales, m: Transcendentals): (r: Editor)
    requires Valid(e.history) && WellFormed(a)
    ensures Valid(r.history)
  {
    StepIn(AsWritten, e, a, scales, m)
  }

  /** The corrected editor: the checked Leg tool and the corrected drag. */
  function Step(e: Editor, a: Action, scales: SymbolScales, m: Transcendentals): (r: Editor)
    requires Valid(e.history) && WellFormed(a)
    ensures Valid(r.history)
  {
    StepIn(Corrected, e, a, scales, m)
  }

  /** The two editors part only where the findings are. Every action but a
      Leg tool click and a select-tool press does the same; a press shows
      the same course afterwards and does the same without a move; a Leg
      tool click does the same unless the first end has left the course. */
  lemma StepsAgree(e: Editor, a: Action, scales: SymbolScales, m: Transcendentals)
    requires Valid(e.history) && WellFormed(a)
    ensures !a.LegToolClick? && !a.SelectPress? ==> StepAsWritten(e, a, scales, m) == Step(e, a, scales, m)
    ensures a.SelectPress? ==>
      && Current(StepAsWritten(e, a, scales, m).history) == Current(Step(e, a, scales, m).history)
      && (|a.moves| == 0 ==> StepAsWritten(e, a, scales, m) == Step(e, a, scales, m))
    ensures a.LegToolClick? ==>
      (e.legStart.None? || e.legStart == Some("") || StillPresent(Current(e.history).elements, e.legStart.value)) ==>
        StepAsWritten(e, a, scales, m) == Step(e, a, scales, m)
  {
  }

  // ----- the course invariant --------------------------------------------------

  /** Ids are unique, every Leg's ends are present point symbols, and the
      Controls are numbered 1..N. */
  ghost predicate CourseOk(s: CourseState) {
    UniqueIds(s.elements) && NoDanglingLegs(s.elements) && DenseNumbering(s.elements)
  }

  /** Every snapshot in the log is consistent, so undo and redo can only
      show consistent courses. */
  ghost predicate HistoryOk(h: History<CourseState>) {
    forall i | 0 <= i < |h.log| :: CourseOk(h.log[i])
  }

  /** New ids are fresh for the course shown, and a loaded file is itself
      consistent. */
  ghost predicate ActionFits(a: Action, s: CourseState, m: Transcendentals) {
    match a
    case PlaceStartAt(id, _) => FreshId(s.elements, id)
    case PlaceControlAt(id, _) => FreshId(s.elements, id)
    case PlaceFinishAt(id, _) => FreshId(s.elements, id)
    case LegToolClick(_, _, legId) => FreshId(s.elements, legId)
    case AreaEnter(_, id) => FreshId(s.elements, id)
    case LoadFile(saved) => LoadCourse(saved, m).Some? ==> CourseOk(LoadCourse(saved, m).value)
    case _ => true
  }

  ghost predicate KeepsOk(u: Update<CourseState>) {
    forall s :: CourseOk(s) ==> CourseOk(Apply(u, s))
  }

  lemma CommitKeepsOk(h: History<CourseState>, u: Update<CourseState>)
    requires Valid(h) && HistoryOk(h) && CourseOk(Apply(u, Current(h)))
    ensures HistoryOk(Commit(h, u))
  {
    var r := Commit(h, u);
    forall i | 0 <= i < |r.log| ensures CourseOk(r.log[i]) {
      if i <= h.index {
        assert r.log[i] == r.log[..h.index + 1][i];
      }
    }
  }

  lemma {:induction false} AmendsKeepOk(h: History<CourseState>, us: seq<Update<CourseState>>)
    requires HistoryOk(h) && forall u | u in us :: KeepsOk(u)
    ensures HistoryOk(Amends(h, us))
    decreases |us|
  {
    if |us| > 0 {
      var next := Amend(h, us[0]);
      assert us[0] in us;
      assert forall i | 0 <= i < |next.log| :: CourseOk(next.log[i]);
      assert forall u | u in us[1..] :: u in us;
      AmendsKeepOk(next, us[1..]);
    }
  }

  lemma MoveKeepsOk(id: Id, pos: Position, m: Transcendentals)
    ensures KeepsOk(MoveUpdate(id, pos, m))
  {
    forall s | CourseOk(s) ensures CourseOk(Apply(MoveUpdate(id, pos, m), s)) {
      MoveKeepsCourseConsistent(s.elements, id, pos, m);
    }
  }

  lemma FixKeepsOk(id: Id, m: Transcendentals)
    ensures KeepsOk(RotationFix(id, m))
  {
    forall s | CourseOk(s) ensures CourseOk(FixStart(s, id, m)) {
      var r := FixStart(s, id, m);
      assert SameSkeleton(s.elements, r.elements) by {
        forall i | 0 <= i < |s.elements| ensures SameKindAndId(s.elements[i], r.elements[i]) {
        }
      }
      SkeletonKeeps(s.elements, r.elements);
    }
  }

  lemma SelectKeepsOk(id: Id)
    ensures KeepsOk(Transform((s: CourseState) => s.(selectedElementId := Some(id))))
  {
  }

  lemma DragKeepsOk(h: History<CourseState>, id: Id, moves: seq<Position>, m: Transcendentals)
    requires Valid(h) && HistoryOk(h)
    ensures HistoryOk(Drag(h, id, moves, m))
  {
    SelectKeepsOk(id);
    var selected := SelectForDrag(h, id);
    if Current(h).selectedElementId != Some(id) {
      CommitKeepsOk(h, Transform((s: CourseState) => s.(selectedElementId := Some(id))));
    }
    if Movable(Current(h), id) {
      CommitKeepsOk(selected, Identity());
      var us := MoveUpdates(id, moves, m) + [RotationFix(id, m)];
      forall u | u in us ensures KeepsOk(u) {
        if u in MoveUpdates(id, moves, m) {
          var k :| 0 <= k < |moves| && MoveUpdates(id, moves, m)[k] == u;
          MoveKeepsOk(id, moves[k], m);
        } else {
          FixKeepsOk(id, m);
        }
      }
      AmendsKeepOk(Commit(selected, Identity()), us);
    }
  }

  /** Clearing the selection keeps every snapshot consistent. */
  lemma DeselectKeepsOk(h: History<CourseState>)
    requires Valid(h) && HistoryOk(h)
    ensures HistoryOk(Deselect(h))
  {
    if Current(h).selectedElementId.Some? {
      CommitKeepsOk(h, Transform((s: CourseState) => s.(selectedElementId := None)));
    }
  }

  /** Deleting keeps the course consistent, whatever was deleted. */
  lemma DeleteKeepsOk(s: CourseState, m: Transcendentals)
    requires CourseOk(s)
    ensures CourseOk(DeleteSelected(s, m))
  {
    match s.selectedElementId
    case None =>
    case Some(id) =>
      if id != "" {
        DeleteLeavesNoDanglingLegs(s.elements, id, m);
        if Find(s.elements, id).Some? && Find(s.elements, id).value.Control? {
          DeleteControlRenumbers(s.elements, id, m);
        } else {
          DeleteNonControlKeepsControls(s.elements, id, m);
        }
      }
  }

  /** Every action of the corrected editor keeps every snapshot in the
      history consistent. The program's own editor does not: its Leg tool
      can commit a dangling Leg (`Editing.StaleLegStartLeavesDanglingLeg`). */
  lemma StepKeepsHistoryOk(e: Editor, a: Action, scales: SymbolScales, m: Transcendentals)
    requires Valid(e.history) && WellFormed(a) && HistoryOk(e.history)
    requires ActionFits(a, Current(e.history), m)
    ensures HistoryOk(Step(e, a, scales, m).history)
  {
    var h := e.history;
    var s := Current(h);
    assert CourseOk(s);
    match a
    case PlaceStartAt(id, p) => CommitKeepsOk(h, Replace(PlaceStart(s, id, p)));
    case PlaceControlAt(id, p) => CommitKeepsOk(h, Replace(PlaceControl(s, id, p)));
    case PlaceFinishAt(id, p) => CommitKeepsOk(h, Replace(PlaceFinish(s, id, p)));
    case LegToolClick(point, scale, legId) =>
      var clicked := PickConnectable(point, s.elements, scale, scales);
      var (next, first) := LegClick(s, e.legStart, clicked, legId, m);
      LegClickKeepsCourseConsistent(s, e.legStart, clicked, legId, m);
      if next != s {
        assert DenseNumbering(next.elements);
        CommitKeepsOk(h, Replace(next));
      }
    case AreaClick(_) =>
    case AreaEnter(kind, id) =>
      var (next, draft) := CloseArea(s, e.draft, kind, id);
      if next != s {
        CommitKeepsOk(h, Replace(next));
      }
    case DeleteKey =>
      if !(s.selectedElementId.None? || s.selectedElementId == Some("")) {
        DeleteKeepsOk(s, m);
        CommitKeepsOk(h, Replace(DeleteSelected(s, m)));
      }
    case SelectPress(point, scale, moves) =>
      var clicked := ElementAtPoint(point, s.elements, scale, s.elements, scales);
      if clicked.None? || clicked.value.id == "" {
        DeselectKeepsOk(h);
      } else {
        DragKeepsOk(h, clicked.value.id, moves, m);
      }
    case UndoKey =>
    case RedoKey =>
    case LoadFile(saved) =>
  }

  /** The program's editor breaks `StepKeepsHistoryOk`. A lone Control "b"
      numbered 1 is a consistent course; with a first end "a" left over from
      a Start that has since been deleted, a Leg tool click on "b" commits a
      Leg a->b that dangles, although the Leg id is fresh. */
  lemma StepAsWrittenBreaksHistoryOk(b: CourseElement, m: Transcendentals)
    requires b.Control? && b.id == "b" && b.number == 1
    ensures var e := Editor(New(CourseState([b], None, None)), Some("a"), []);
      var a := LegToolClick(b.center, 1.0, "l");
      && HistoryOk(e.history) && ActionFits(a, Current(e.history), m)
      && !HistoryOk(StepAsWritten(e, a, DefaultScales, m).history)
  {
    var s := CourseState([b], None, None);
    var e := Editor(New(s), Some("a"), []);
    LoneControlOk(b);
    ClickOnControl(b);
    LegToMissingStart(b, m);
    var next := s.(elements := [b, Leg("l", "a", "b", Solid)]);
    assert LegClickAsWritten(s, Some("a"), Some(b), "l", m) == (next, None);
    var r := LegToolStep(AsWritten, e, b.center, 1.0, "l", DefaultScales, m).history;
    assert r == Commit(e.history, Replace(next));
    assert r.log[r.index] == next;
  }

  lemma LoneControlOk(b: CourseElement)
    requires b.Control? && b.number == 1
    ensures CourseOk(CourseState([b], None, None))
  {
    assert ControlsOf([b]) == [b] by {
      assert [b][1..] == [];
    }
  }

  lemma ClickOnControl(b: CourseElement)
    requires b.Control?
    ensures PickConnectable(b.center, [b], 1.0, DefaultScales) == Some(b)
  {
    NearControlHit(b, b.center);
    assert FirstPointHit(b.center, [b], ClickTolerance(1.0), DefaultScales) == Some(0);
  }

  /** The Leg tool as the program has it breaks this: after the first end is
      deleted, a click on another symbol commits a course with a dangling
      Leg (see `Editing.StaleLegStartLeavesDanglingLeg`); `Step` uses the
      checked click, `Editing.LegClick`. */
  lemma CheckedLegClickNeverDangles(e: Editor, point: Point, scale: real, legId: Id,
                                    scales: SymbolScales, m: Transcendentals)
    requires Valid(e.history) && scale > 0.0 && CourseOk(Current(e.history))
    requires FreshId(Current(e.history).elements, legId)
    ensures NoDanglingLegs(Current(Step(e, LegToolClick(point, scale, legId), scales, m).history).elements)
  {
    var s := Current(e.history);
    LegClickKeepsCourseConsistent(s, e.legStart, PickConnectable(point, s.elements, scale, scales), legId, m);
  }
}
