/** What the delete cascade guarantees: no Leg left dangling, exactly the
    referencing Legs removed, dense renumbering in the former order, the
    affected Starts oriented toward their new targets, unique ids kept. */
module CascadeProperties {
  import opened Wrappers
  import opened CourseModel
  import opened Numerics
  import opened Orientation
  import opened ControlOrder
  import opened Cascade
  import Decimal

  // ----- unique ids --------------------------------------------------------

  lemma UniqueSameId(els: seq<CourseElement>, a: CourseElement, b: CourseElement)
    requires UniqueIds(els) && a in els && b in els && a.id == b.id
    ensures a == b
  {
    var i :| 0 <= i < |els| && els[i] == a;
    var j :| 0 <= j < |els| && els[j] == b;
    assert i == j;
  }

  lemma UniqueTail(els: seq<CourseElement>)
    requires UniqueIds(els) && |els| > 0
    ensures UniqueIds(els[1..])
    ensures forall e | e in els[1..] :: e.id != els[0].id
  {
    forall e | e in els[1..] ensures e.id != els[0].id {
      var k :| 0 <= k < |els[1..]| && els[1..][k] == e;
      assert els[k + 1] == e;
    }
    forall i, j | 0 <= i < j < |els[1..]| ensures els[1..][i].id != els[1..][j].id {
      assert els[1..][i] == els[i + 1] && els[1..][j] == els[j + 1];
    }
  }

  lemma UniqueCons(x: CourseElement, r: seq<CourseElement>)
    requires UniqueIds(r) && forall e | e in r :: e.id != x.id
    ensures UniqueIds([x] + r)
  {
    var s := [x] + r;
    forall i, j | 0 <= i < j < |s| ensures s[i].id != s[j].id {
      assert s[j] == r[j - 1];
      if i > 0 {
        assert s[i] == r[i - 1];
      } else {
        assert r[j - 1] in r;
      }
    }
  }

  lemma {:induction false} WithoutIdUnique(els: seq<CourseElement>, id: Id)
    requires UniqueIds(els)
    ensures UniqueIds(WithoutId(els, id))
  {
    if |els| > 0 {
      UniqueTail(els);
      WithoutIdUnique(els[1..], id);
      if els[0].id != id {
        UniqueCons(els[0], WithoutId(els[1..], id));
      }
    }
  }

  lemma {:induction false} WithoutIdsUnique(els: seq<CourseElement>, ids: set<Id>)
    requires UniqueIds(els)
    ensures UniqueIds(WithoutIds(els, ids))
  {
    if |els| > 0 {
      UniqueTail(els);
      WithoutIdsUnique(els[1..], ids);
      if els[0].id !in ids {
        UniqueCons(els[0], WithoutIds(els[1..], ids));
      }
    }
  }

  lemma {:induction false} ControlsUnique(els: seq<CourseElement>)
    requires UniqueIds(els)
    ensures UniqueIds(ControlsOf(els))
  {
    if |els| > 0 {
      UniqueTail(els);
      ControlsUnique(els[1..]);
      if els[0].Control? {
        UniqueCons(els[0], ControlsOf(els[1..]));
      }
    }
  }

  // ----- shape: what renumbering and re-orientation never change ----------

  /** An element with its number, description and angle blanked out. */
  function Shape(e: CourseElement): (r: CourseElement)
    ensures r.id == e.id && r.HasCenter() == e.HasCenter()
    ensures r.Start? == e.Start? && r.Control? == e.Control? && r.Finish? == e.Finish?
    ensures r.Leg? == e.Leg? && r.Area? == e.Area?
    ensures r.HasCenter() ==> r.center == e.center
    ensures e.Leg? || e.Area? || e.Finish? ==> r == e
  {
    match e
    case Start(id, c, _) => Start(id, c, None)
    case Control(id, c, _, _) => Control(id, c, 0, ControlDescription("", "", "", "", "", "", "", ""))
    case _ => e
  }

  ghost predicate SameShape(a: seq<CourseElement>, b: seq<CourseElement>) {
    |a| == |b| && forall i | 0 <= i < |a| :: Shape(a[i]) == Shape(b[i])
  }

  lemma HasPointTransfer(a: seq<CourseElement>, b: seq<CourseElement>, x: Id)
    requires SameShape(a, b) && HasPointWithId(a, x)
    ensures HasPointWithId(b, x)
  {
    var p :| p in a && p.HasCenter() && p.id == x;
    var i :| 0 <= i < |a| && a[i] == p;
    assert Shape(a[i]) == Shape(b[i]);
    assert b[i] in b;
  }

  lemma NoDanglingTransfer(a: seq<CourseElement>, b: seq<CourseElement>)
    requires SameShape(a, b) && NoDanglingLegs(a)
    ensures NoDanglingLegs(b)
  {
    forall e | e in b && e.Leg?
      ensures HasPointWithId(b, e.fromElementId) && HasPointWithId(b, e.toElementId)
    {
      var i :| 0 <= i < |b| && b[i] == e;
      assert Shape(a[i]) == Shape(b[i]);
      assert a[i] == e;
      assert a[i] in a;
      HasPointTransfer(a, b, e.fromElementId);
      HasPointTransfer(a, b, e.toElementId);
    }
  }

  lemma UniqueTransfer(a: seq<CourseElement>, b: seq<CourseElement>)
    requires SameShape(a, b) && UniqueIds(a)
    ensures UniqueIds(b)
  {
    forall i, j | 0 <= i < j < |b| ensures b[i].id != b[j].id {
      assert Shape(a[i]) == Shape(b[i]) && Shape(a[j]) == Shape(b[j]);
    }
  }

  lemma RenumberShape(els: seq<CourseElement>)
    ensures SameShape(els, Renumber(els))
  {
  }

  lemma ReorientShape(els: seq<CourseElement>, dirty: set<Id>, m: Transcendentals)
    ensures SameShape(els, Reorient(els, dirty, m))
    ensures SameButStartRotations(els, Reorient(els, dirty, m))
  {
  }

  /** The cascade's result lines up, element for element, with the
      survivors of the deletion. */
  lemma DeleteShape(prev: seq<CourseElement>, id: Id, m: Transcendentals)
    ensures SameShape(Survivors(prev, id), DeleteElement(prev, id, m))
  {
    var kept := Survivors(prev, id);
    var deleted := Find(prev, id);
    var renumbered := if deleted.Some? && deleted.value.Control? then Renumber(kept) else kept;
    RenumberShape(kept);
    ReorientShape(renumbered, Dirty(prev, id), m);
  }

  // ----- what is removed ---------------------------------------------------

  /** The deleted element is a point symbol. */
  predicate PointDeleted(prev: seq<CourseElement>, id: Id) {
    Find(prev, id).Some? && Find(prev, id).value.HasCenter()
  }

  /** An element's id is among the referencing Legs' ids only if it is one
      of those Legs. */
  lemma LegIdMembership(prev: seq<CourseElement>, remaining: seq<CourseElement>, id: Id, e: CourseElement)
    requires UniqueIds(prev) && e in prev
    requires forall x | x in remaining :: x in prev
    ensures e.id in LegIdsReferencing(remaining, id) ==> e in remaining && e.References(id)
  {
    if e.id in LegIdsReferencing(remaining, id) {
      var l :| l in remaining && l.References(id) && l.id == e.id;
      UniqueSameId(prev, l, e);
    }
  }

  lemma SurvivorsUnique(prev: seq<CourseElement>, id: Id)
    requires UniqueIds(prev)
    ensures UniqueIds(Survivors(prev, id))
    ensures forall e | e in Survivors(prev, id) :: e in prev
  {
    var remaining := WithoutId(prev, id);
    WithoutIdUnique(prev, id);
    WithoutIdsUnique(remaining, LegIdsReferencing(remaining, id));
  }

  /** Deleting a Start, Control or Finish removes it and exactly the Legs
      referencing it; deleting a Leg or an Area removes only that element. */
  lemma SurvivorsExactly(prev: seq<CourseElement>, id: Id)
    requires UniqueIds(prev)
    ensures forall e | e in prev ::
      e in Survivors(prev, id) <==> e.id != id && !(PointDeleted(prev, id) && e.References(id))
  {
    var remaining := WithoutId(prev, id);
    if PointDeleted(prev, id) {
      var legIds := LegIdsReferencing(remaining, id);
      assert Survivors(prev, id) == WithoutIds(remaining, legIds);
      forall e | e in prev
        ensures e in Survivors(prev, id) <==> e.id != id && !e.References(id)
      {
        LegIdMembership(prev, remaining, id, e);
        assert e.id != id ==> e in remaining;
        assert e.id != id && e.References(id) ==> e.id in legIds;
      }
    } else {
      assert Survivors(prev, id) == remaining;
    }
  }

  // ----- no dangling legs, unique ids ---------------------------------------

  lemma SurvivorsNoDangling(prev: seq<CourseElement>, id: Id)
    requires UniqueIds(prev) && NoDanglingLegs(prev)
    ensures NoDanglingLegs(Survivors(prev, id))
  {
    var kept := Survivors(prev, id);
    SurvivorsUnique(prev, id);
    SurvivorsExactly(prev, id);
    forall l | l in kept && l.Leg?
      ensures HasPointWithId(kept, l.fromElementId) && HasPointWithId(kept, l.toElementId)
    {
      EndSurvives(prev, id, l, l.fromElementId);
      EndSurvives(prev, id, l, l.toElementId);
    }
  }

  lemma EndSurvives(prev: seq<CourseElement>, id: Id, l: CourseElement, end: Id)
    requires UniqueIds(prev) && NoDanglingLegs(prev)
    requires l in Survivors(prev, id) && l.Leg?
    requires end == l.fromElementId || end == l.toElementId
    ensures HasPointWithId(Survivors(prev, id), end)
  {
    SurvivorsUnique(prev, id);
    SurvivorsExactly(prev, id);
    var p :| p in prev && p.HasCenter() && p.id == end;
    if p.id == id {
      // the Leg survived, so the deleted element is not a point symbol;
      // yet `p`, a point symbol, carries its id
      FindUnique(prev, p);
      assert l.References(id);
      assert false;
    }
    assert p in Survivors(prev, id);
  }

  /** Deleting never leaves a Leg whose end is missing. */
  lemma DeleteLeavesNoDanglingLegs(prev: seq<CourseElement>, id: Id, m: Transcendentals)
    requires UniqueIds(prev) && NoDanglingLegs(prev)
    ensures NoDanglingLegs(DeleteElement(prev, id, m))
    ensures UniqueIds(DeleteElement(prev, id, m))
  {
    SurvivorsNoDangling(prev, id);
    SurvivorsUnique(prev, id);
    DeleteShape(prev, id, m);
    NoDanglingTransfer(Survivors(prev, id), DeleteElement(prev, id, m));
    UniqueTransfer(Survivors(prev, id), DeleteElement(prev, id, m));
  }

  /** Whatever the course, deleting a point symbol leaves no Leg naming it,
      and no element at all carries the deleted id. */
  lemma DeleteRemovesReferences(prev: seq<CourseElement>, id: Id, m: Transcendentals)
    ensures forall e | e in DeleteElement(prev, id, m) :: e.id != id
    ensures PointDeleted(prev, id) ==> forall e | e in DeleteElement(prev, id, m) :: !e.References(id)
  {
    var kept := Survivors(prev, id);
    var result := DeleteElement(prev, id, m);
    DeleteShape(prev, id, m);
    var remaining := WithoutId(prev, id);
    assert forall e | e in kept :: e in remaining;
    forall e | e in result
      ensures e.id != id
      ensures PointDeleted(prev, id) ==> !e.References(id)
    {
      var i :| 0 <= i < |result| && result[i] == e;
      assert Shape(kept[i]) == Shape(result[i]);
      assert kept[i] in kept;
    }
  }

  // ----- renumbering ---------------------------------------------------------

  lemma {:induction false} ControlsOfMap(els: seq<CourseElement>, f: CourseElement -> CourseElement)
    requires forall e :: f(e).Control? == e.Control?
    ensures ControlsOf(MapElements(els, f)) == MapElements(ControlsOf(els), f)
  {
    if |els| > 0 {
      var r := MapElements(els, f);
      ControlsOfMap(els[1..], f);
      assert r[0] == f(els[0]);
      assert r[1..] == MapElements(els[1..], f);
      var rest := MapElements(ControlsOf(els[1..]), f);
      if els[0].Control? {
        assert ControlsOf(r) == [r[0]] + ControlsOf(r[1..]);
        MapCons(els[0], ControlsOf(els[1..]), f);
      } else {
        assert ControlsOf(r) == ControlsOf(r[1..]);
      }
    }
  }

  lemma MapCons(e: CourseElement, tail: seq<CourseElement>, f: CourseElement -> CourseElement)
    ensures MapElements([e] + tail, f) == [f(e)] + MapElements(tail, f)
  {
    assert ([e] + tail)[1..] == tail;
  }

  /** Renumbering numbers the Controls 1..N without gaps or repeats, in the
      order of their former numbers, and writes each number into column A. */
  lemma RenumberIsDense(kept: seq<CourseElement>)
    requires UniqueIds(kept)
    ensures DenseNumbering(Renumber(kept))
    ensures forall c | c in ControlsOf(Renumber(kept)) :: c.description.aNumber == Decimal.IntToString(c.number)
    ensures var before, after := ControlsOf(kept), ControlsOf(Renumber(kept));
      && |before| == |after|
      && forall i, j | 0 <= i < |before| && 0 <= j < |before| && before[i].number < before[j].number ::
           after[i].number < after[j].number
  {
    var cs := ControlsOf(kept);
    var sorted := SortByNumber(cs);
    var f := e => RenumberControl(e, sorted);
    ControlsOfMap(kept, f);
    var after := ControlsOf(Renumber(kept));
    assert after == MapElements(cs, f);
    ControlsUnique(kept);
    SortKeepsElements(cs);
    forall i | 0 <= i < |cs|
      ensures IndexOfId(sorted, cs[i].id).Some?
      ensures sorted[IndexOfId(sorted, cs[i].id).value] == cs[i]
      ensures after[i].number == IndexOfId(sorted, cs[i].id).value + 1
      ensures after[i].description.aNumber == Decimal.IntToString(after[i].number)
    {
      IndexOfMember(cs, sorted, cs[i]);
    }
    forall i, j | 0 <= i < j < |cs| ensures after[i].number != after[j].number {
      assert cs[i].id != cs[j].id;
    }
    forall i, j | 0 <= i < |cs| && 0 <= j < |cs| && cs[i].number < cs[j].number
      ensures after[i].number < after[j].number
    {
      var a, b := IndexOfId(sorted, cs[i].id).value, IndexOfId(sorted, cs[j].id).value;
      assert a != b;
    }
  }

  lemma ControlsOfReorient(els: seq<CourseElement>, dirty: set<Id>, m: Transcendentals)
    ensures ControlsOf(Reorient(els, dirty, m)) == ControlsOf(els)
  {
    if |dirty| > 0 {
      var f := e => ReorientOne(e, dirty, els, m);
      ControlsOfMap(els, f);
      var cs := ControlsOf(els);
      assert MapElements(cs, f) == cs;
    }
  }

  lemma DeleteControlUnfolds(prev: seq<CourseElement>, id: Id, m: Transcendentals)
    requires Find(prev, id).Some? && Find(prev, id).value.Control?
    ensures DeleteElement(prev, id, m) == Reorient(Renumber(Survivors(prev, id)), Dirty(prev, id), m)
  {
  }

  /** After a Control is deleted, the remaining Controls are numbered 1..N
      in their former relative order. */
  lemma DeleteControlRenumbers(prev: seq<CourseElement>, id: Id, m: Transcendentals)
    requires UniqueIds(prev)
    requires Find(prev, id).Some? && Find(prev, id).value.Control?
    ensures DenseNumbering(DeleteElement(prev, id, m))
    ensures var before, after := ControlsOf(Survivors(prev, id)), ControlsOf(DeleteElement(prev, id, m));
      && |before| == |after|
      && forall i, j | 0 <= i < |before| && 0 <= j < |before| && before[i].number < before[j].number ::
           after[i].number < after[j].number
  {
    var kept := Survivors(prev, id);
    SurvivorsUnique(prev, id);
    RenumberIsDense(kept);
    ControlsOfReorient(Renumber(kept), Dirty(prev, id), m);
    DeleteControlUnfolds(prev, id, m);
    assert ControlsOf(DeleteElement(prev, id, m)) == ControlsOf(Renumber(kept));
  }

  /** After a Control is deleted, column A of each remaining Control's
      description is its new number. */
  lemma DeleteControlWritesColumnA(prev: seq<CourseElement>, id: Id, m: Transcendentals)
    requires UniqueIds(prev)
    requires Find(prev, id).Some? && Find(prev, id).value.Control?
    ensures forall c | c in ControlsOf(DeleteElement(prev, id, m)) ::
      c.description.aNumber == Decimal.IntToString(c.number)
  {
    var kept := Survivors(prev, id);
    SurvivorsUnique(prev, id);
    RenumberIsDense(kept);
    ControlsOfReorient(Renumber(kept), Dirty(prev, id), m);
    DeleteControlUnfolds(prev, id, m);
    assert ControlsOf(DeleteElement(prev, id, m)) == ControlsOf(Renumber(kept));
  }

  // ----- re-orientation ------------------------------------------------------

  /** Re-orientation computes each dirty Start's angle against the course it
      produces, since the angles it writes do not move any target. */
  lemma ReorientOrientsDirty(els: seq<CourseElement>, dirty: set<Id>, m: Transcendentals)
    ensures var r := Reorient(els, dirty, m);
      forall i | 0 <= i < |r| && r[i].Start? && r[i].id in dirty ::
        r[i].rotationAngle == Some(RotationFor(r[i].id, r[i].center, r, m))
  {
    var r := Reorient(els, dirty, m);
    forall i | 0 <= i < |r| && r[i].Start? && r[i].id in dirty
      ensures r[i].rotationAngle == Some(RotationFor(r[i].id, r[i].center, r, m))
    {
      ReorientedStart(els, dirty, m, i);
    }
  }

  lemma ReorientedStart(els: seq<CourseElement>, dirty: set<Id>, m: Transcendentals, i: int)
    requires 0 <= i < |els|
    requires Reorient(els, dirty, m)[i].Start? && Reorient(els, dirty, m)[i].id in dirty
    ensures var r := Reorient(els, dirty, m);
      r[i].rotationAngle == Some(RotationFor(r[i].id, r[i].center, r, m))
  {
    var r := Reorient(els, dirty, m);
    assert |dirty| > 0;
    assert r[i] == ReorientOne(els[i], dirty, els, m);
    ReorientShape(els, dirty, m);
    RotationIgnoresStartRotations(els, r, r[i].id, r[i].center, m);
  }

  lemma DeleteUnfolds(prev: seq<CourseElement>, id: Id, m: Transcendentals)
    ensures var deleted := Find(prev, id);
      var renumbered := if deleted.Some? && deleted.value.Control? then Renumber(Survivors(prev, id)) else Survivors(prev, id);
      DeleteElement(prev, id, m) == Reorient(renumbered, Dirty(prev, id), m)
  {
  }

  /** Each Start the cascade touched points at its target in the course as
      it stands after the deletion. */
  lemma DeleteOrientsDirtyStarts(prev: seq<CourseElement>, id: Id, m: Transcendentals)
    ensures var r := DeleteElement(prev, id, m);
      forall i | 0 <= i < |r| && r[i].Start? && r[i].id in Dirty(prev, id) ::
        r[i].rotationAngle == Some(RotationFor(r[i].id, r[i].center, r, m))
  {
    var deleted := Find(prev, id);
    var renumbered := if deleted.Some? && deleted.value.Control? then Renumber(Survivors(prev, id)) else Survivors(prev, id);
    DeleteUnfolds(prev, id, m);
    ReorientOrientsDirty(renumbered, Dirty(prev, id), m);
  }

  /** The Starts the deletion affects, read off the course before it: an
      end of the deleted Leg, or the far end of a Leg that is removed with
      the deleted point symbol. */
  ghost predicate Affected(prev: seq<CourseElement>, id: Id, x: Id) {
    && IsStartId(prev, x)
    && Find(prev, id).Some?
    && var d := Find(prev, id).value;
       || (d.Leg? && (x == d.fromElementId || x == d.toElementId))
       || (!d.Leg? && d.HasCenter() &&
           exists l | l in prev && l.id != id && l.References(id) :: OtherEnd(l, id) == x)
  }

  /** The cascade marks for re-orientation exactly the affected Starts. */
  lemma DirtyStartsExactly(prev: seq<CourseElement>, id: Id, x: Id)
    ensures x in Dirty(prev, id) <==> Affected(prev, id, x)
  {
    match Find(prev, id)
    case None =>
    case Some(d) =>
      var remaining := WithoutId(prev, id);
      if !d.Leg? && d.HasCenter() {
        if Affected(prev, id, x) {
          var l :| l in prev && l.id != id && l.References(id) && OtherEnd(l, id) == x;
          assert l in remaining;
        }
      }
  }

  /** Every affected Start points at its target in the course left by the
      deletion. */
  lemma DeleteOrientsAffectedStarts(prev: seq<CourseElement>, id: Id, m: Transcendentals)
    ensures var r := DeleteElement(prev, id, m);
      forall i | 0 <= i < |r| && r[i].Start? && Affected(prev, id, r[i].id) ::
        r[i].rotationAngle == Some(RotationFor(r[i].id, r[i].center, r, m))
  {
    var r := DeleteElement(prev, id, m);
    DeleteOrientsDirtyStarts(prev, id, m);
    forall i | 0 <= i < |r| && r[i].Start? && Affected(prev, id, r[i].id)
      ensures r[i].rotationAngle == Some(RotationFor(r[i].id, r[i].center, r, m))
    {
      DirtyStartsExactly(prev, id, r[i].id);
    }
  }

  /** Nothing else changes: every element of the result is the survivor at
      the same position, except for a re-oriented Start's angle and, when a
      Control was deleted, a Control's number and column A. */
  lemma DeleteChangesOnlyCascade(prev: seq<CourseElement>, id: Id, m: Transcendentals)
    ensures var kept, r := Survivors(prev, id), DeleteElement(prev, id, m);
      && |r| == |kept|
      && forall i | 0 <= i < |r| ::
           || r[i] == kept[i]
           || (kept[i].Start? && kept[i].id in Dirty(prev, id) && r[i] == kept[i].(rotationAngle := r[i].rotationAngle))
           || (kept[i].Control? && Find(prev, id).value.Control? &&
               r[i] == kept[i].(number := r[i].number, description := kept[i].description.(aNumber := r[i].description.aNumber)))
  {
    var kept := Survivors(prev, id);
    var deleted := Find(prev, id);
    var renumbered := if deleted.Some? && deleted.value.Control? then Renumber(kept) else kept;
    ReorientShape(renumbered, Dirty(prev, id), m);
  }

  /** Deleting anything but a Control leaves the Controls as they were. */
  lemma DeleteNonControlKeepsControls(prev: seq<CourseElement>, id: Id, m: Transcendentals)
    requires UniqueIds(prev)
    requires !(Find(prev, id).Some? && Find(prev, id).value.Control?)
    ensures ControlsOf(DeleteElement(prev, id, m)) == ControlsOf(prev)
  {
    var remaining := WithoutId(prev, id);
    ControlsOfWithoutId(prev, id);
    if PointDeleted(prev, id) {
      var legIds := LegIdsReferencing(remaining, id);
      forall e | e in remaining && e.Control? ensures e.id !in legIds {
      }
      ControlsOfWithoutIds(remaining, legIds);
    }
    ControlsOfReorient(Survivors(prev, id), Dirty(prev, id), m);
  }

  lemma {:induction false} ControlsOfWithoutId(els: seq<CourseElement>, id: Id)
    requires forall e | e in els && e.Control? :: e.id != id
    ensures ControlsOf(WithoutId(els, id)) == ControlsOf(els)
  {
    if |els| > 0 {
      assert forall e | e in els[1..] :: e in els;
      ControlsOfWithoutId(els[1..], id);
    }
  }

  lemma {:induction false} ControlsOfWithoutIds(els: seq<CourseElement>, ids: set<Id>)
    requires forall e | e in els && e.Control? :: e.id !in ids
    ensures ControlsOf(WithoutIds(els, ids)) == ControlsOf(els)
  {
    if |els| > 0 {
      assert forall e | e in els[1..] :: e in els;
      ControlsOfWithoutIds(els[1..], ids);
    }
  }
}
