/** `handleDeleteSelected` of App.tsx: deleting an element and the cascade
    that keeps the course consistent. Deleting a point symbol removes the
    Legs that reference it; deleting a Control renumbers the remaining
    Controls 1..N in number order; Starts at the other end of a removed Leg,
    or at either end of a deleted Leg, are re-oriented against the course
    as it is after the deletion. */
module Cascade {
  import opened Wrappers
  import opened CourseModel
  import opened Numerics
  import opened Orientation
  import opened ControlOrder
  import Decimal

  /** `elements.filter(el => el.id !== id)`. */
  function WithoutId(els: seq<CourseElement>, id: Id): (r: seq<CourseElement>)
    ensures forall e :: e in r <==> e in els && e.id != id
  {
    if |els| == 0 then []
    else if els[0].id == id then WithoutId(els[1..], id)
    else [els[0]] + WithoutId(els[1..], id)
  }

  /** `elements.filter(el => !ids.includes(el.id))`. */
  function WithoutIds(els: seq<CourseElement>, ids: set<Id>): (r: seq<CourseElement>)
    ensures forall e :: e in r <==> e in els && e.id !in ids
  {
    if |els| == 0 then []
    else if els[0].id in ids then WithoutIds(els[1..], ids)
    else [els[0]] + WithoutIds(els[1..], ids)
  }

  /** Both filters keep course order: each distributes over concatenation
      and keeps a single element exactly when it passes the test. */
  lemma {:induction false} WithoutIdConcat(a: seq<CourseElement>, b: seq<CourseElement>, id: Id)
    ensures WithoutId(a + b, id) == WithoutId(a, id) + WithoutId(b, id)
    ensures forall e :: WithoutId([e], id) == if e.id == id then [] else [e]
  {
    if |a| > 0 {
      assert (a + b)[1..] == a[1..] + b;
      WithoutIdConcat(a[1..], b, id);
    } else {
      assert a + b == b;
    }
    forall e ensures WithoutId([e], id) == if e.id == id then [] else [e] {
      assert [e][1..] == [];
    }
  }

  lemma {:induction false} WithoutIdsConcat(a: seq<CourseElement>, b: seq<CourseElement>, ids: set<Id>)
    ensures WithoutIds(a + b, ids) == WithoutIds(a, ids) + WithoutIds(b, ids)
    ensures forall e :: WithoutIds([e], ids) == if e.id in ids then [] else [e]
  {
    if |a| > 0 {
      assert (a + b)[1..] == a[1..] + b;
      WithoutIdsConcat(a[1..], b, ids);
    } else {
      assert a + b == b;
    }
    forall e ensures WithoutIds([e], ids) == if e.id in ids then [] else [e] {
      assert [e][1..] == [];
    }
  }

  /** The ids of the Legs referencing `id` (`legsToRemove`). */
  function LegIdsReferencing(els: seq<CourseElement>, id: Id): set<Id> {
    set e | e in els && e.References(id) :: e.id
  }

  /** The first element with this id is a Start. */
  predicate IsStartId(els: seq<CourseElement>, id: Id) {
    Find(els, id).Some? && Find(els, id).value.Start?
  }

  /** The Starts to re-orient. For a deleted Leg, its Start ends; for a
      deleted point symbol, the Start at the far end of each Leg removed with
      it. Ends are looked up in the course before the deletion. */
  function DirtyStarts(prev: seq<CourseElement>, remaining: seq<CourseElement>, deleted: CourseElement, id: Id)
    : (r: set<Id>)
    ensures forall x | x in r :: IsStartId(prev, x)
  {
    if deleted.Leg? then
      set x | x in {deleted.fromElementId, deleted.toElementId} && IsStartId(prev, x)
    else if deleted.HasCenter() then
      set l | l in remaining && l.References(id) && IsStartId(prev, OtherEnd(l, id)) :: OtherEnd(l, id)
    else
      {}
  }

  /** The course after the deletion and the Leg cascade, before any
      renumbering or re-orientation. */
  function Survivors(prev: seq<CourseElement>, id: Id): seq<CourseElement> {
    var remaining := WithoutId(prev, id);
    match Find(prev, id)
    case Some(d) =>
      if !d.Leg? && d.HasCenter() then WithoutIds(remaining, LegIdsReferencing(remaining, id)) else remaining
    case None => remaining
  }

  function Dirty(prev: seq<CourseElement>, id: Id): set<Id> {
    match Find(prev, id)
    case Some(d) => DirtyStarts(prev, WithoutId(prev, id), d, id)
    case None => {}
  }

  /** `elements.map(f)`. */
  function MapElements(els: seq<CourseElement>, f: CourseElement -> CourseElement): (r: seq<CourseElement>)
    ensures |r| == |els|
    ensures forall i | 0 <= i < |els| :: r[i] == f(els[i])
  {
    seq(|els|, i requires 0 <= i < |els| => f(els[i]))
  }

  /** Gives a Control its position in `sorted` plus one as its number and as
      its description's A column, when either differs. */
  function RenumberControl(e: CourseElement, sorted: seq<CourseElement>): (r: CourseElement)
    ensures r.Control? == e.Control? && r.id == e.id
    ensures !e.Control? ==> r == e
    ensures e.Control? && IndexOfId(sorted, e.id).None? ==> r == e
    ensures e.Control? && IndexOfId(sorted, e.id).Some? ==>
      var n := IndexOfId(sorted, e.id).value + 1;
      r == e.(number := n, description := e.description.(aNumber := Decimal.IntToString(n)))
  {
    if e.Control? then
      match IndexOfId(sorted, e.id)
      case Some(idx) =>
        var n := idx + 1;
        if e.number != n || e.description.aNumber != Decimal.IntToString(n) then
          e.(number := n, description := e.description.(aNumber := Decimal.IntToString(n)))
        else e
      case None => e
    else e
  }

  /** A renumbered Control's number is its place in `sorted` counting from
      1, and its column A reads back as that number; it stays where it was. */
  lemma RenumberedControlReadsBack(e: CourseElement, sorted: seq<CourseElement>)
    requires e.Control? && IndexOfId(sorted, e.id).Some?
    ensures var r := RenumberControl(e, sorted);
      && 0 < r.number <= |sorted| && sorted[r.number - 1].id == r.id
      && Decimal.ParseInt(r.description.aNumber) == Some(r.number)
      && r.center == e.center
  {
    Decimal.ParseIntOfIntToString(IndexOfId(sorted, e.id).value + 1);
  }

  function Renumber(els: seq<CourseElement>): seq<CourseElement> {
    var sorted := SortByNumber(ControlsOf(els));
    MapElements(els, e => RenumberControl(e, sorted))
  }

  /** A Start named in `dirty` gets the angle `els` calls for. */
  function ReorientOne(e: CourseElement, dirty: set<Id>, els: seq<CourseElement>, m: Transcendentals): CourseElement {
    if e.Start? && e.id in dirty then e.(rotationAngle := Some(RotationFor(e.id, e.center, els, m))) else e
  }

  /** Recomputes the rotation of the Starts named in `dirty` against `els`. */
  function Reorient(els: seq<CourseElement>, dirty: set<Id>, m: Transcendentals): seq<CourseElement> {
    if |dirty| > 0 then MapElements(els, e => ReorientOne(e, dirty, els, m)) else els
  }

  /** The element list `handleDeleteSelected` leaves when `id` is selected. */
  function DeleteElement(prev: seq<CourseElement>, id: Id, m: Transcendentals): seq<CourseElement> {
    var kept := Survivors(prev, id);
    var deleted := Find(prev, id);
    var renumbered := if deleted.Some? && deleted.value.Control? then Renumber(kept) else kept;
    Reorient(renumbered, Dirty(prev, id), m)
  }

  /** `handleDeleteSelected`: nothing without a selection (an empty id counts
      as none); otherwise the cascade, and the selection is cleared. */
  function DeleteSelected(s: CourseState, m: Transcendentals): (r: CourseState)
    ensures s.selectedElementId.None? || s.selectedElementId == Some("") ==> r == s
    ensures s.selectedElementId.Some? && s.selectedElementId != Some("") ==>
      && r.selectedElementId.None?
      && r.mapFileName == s.mapFileName
      && r.elements == DeleteElement(s.elements, s.selectedElementId.value, m)
  {
    match s.selectedElementId
    case None => s
    case Some(id) =>
      if id == "" then s
      else s.(elements := DeleteElement(s.elements, id, m), selectedElementId := None)
  }
}
