/** `getRotationAngleForStart` of App.tsx: a Start triangle points at the
    element it leads to. Among the Controls at the far end of a Leg touching
    the Start, the lowest-numbered one is the target; failing any Control,
    the Finish with the smallest id. The angle itself is `atan2`, supplied
    from outside. */
module Orientation {
  import opened Wrappers
  import opened CourseModel
  import opened Numerics

  /** The id at the far end of a Leg from `startId`. A Leg from the Start to
      itself has the Start at its far end. */
  function OtherEnd(leg: CourseElement, startId: Id): (r: Id)
    requires leg.Leg?
    ensures leg.References(startId) ==> leg.References(r)
    ensures leg.References(startId) ==> {startId, r} == {leg.fromElementId, leg.toElementId}
    ensures leg.References(startId) ==> (r == leg.fromElementId || r == leg.toElementId)
    ensures leg.fromElementId == startId ==> r == leg.toElementId
    ensures leg.fromElementId != startId ==> r == leg.fromElementId
  {
    if leg.fromElementId == startId then leg.toElementId else leg.fromElementId
  }

  /** The element the far end resolves to (the first with that id). */
  function FarElement(leg: CourseElement, startId: Id, all: seq<CourseElement>): Option<CourseElement>
    requires leg.Leg?
  {
    Find(all, OtherEnd(leg, startId))
  }

  /** The two kinds a Start may point at. */
  datatype TargetKind = ControlKind | FinishKind

  predicate OfKind(e: CourseElement, kind: TargetKind) {
    match kind
    case ControlKind => e.Control?
    case FinishKind => e.Finish?
  }

  /** `e` is at the far end of some Leg of `all` touching the Start. */
  ghost predicate ConnectedTo(all: seq<CourseElement>, startId: Id, e: CourseElement) {
    exists leg | leg in all && leg.References(startId) :: FarElement(leg, startId, all) == Some(e)
  }

  /** The far-end elements of `kind` over the Legs of `scan` touching the
      Start, in Leg order (the source's `connectedControls` and
      `connectedFinishes`). */
  function Connected(scan: seq<CourseElement>, startId: Id, all: seq<CourseElement>, kind: TargetKind)
    : (cs: seq<CourseElement>)
    ensures forall c | c in cs :: c in all && OfKind(c, kind)
    ensures forall leg | leg in scan && leg.References(startId) ::
      var far := FarElement(leg, startId, all);
      far.Some? && OfKind(far.value, kind) ==> far.value in cs
  {
    if |scan| == 0 then []
    else
      var rest := Connected(scan[1..], startId, all, kind);
      assert forall leg | leg in scan[1..] :: leg in scan;
      var leg := scan[0];
      if leg.References(startId) then
        var far := FarElement(leg, startId, all);
        if far.Some? && OfKind(far.value, kind) then [far.value] + rest else rest
      else rest
  }

  /** The Control a stable sort by number puts first: the earliest of the
      lowest-numbered ones. */
  function FirstLowestNumber(cs: seq<CourseElement>): (c: CourseElement)
    requires |cs| > 0
    requires forall d | d in cs :: d.Control?
    ensures c in cs && c.Control?
    ensures forall d | d in cs :: c.number <= d.number
    ensures exists i | 0 <= i < |cs| :: (cs[i] == c && forall j | 0 <= j < i :: cs[j].number > c.number)
  {
    if |cs| == 1 then cs[0]
    else
      var m := FirstLowestNumber(cs[1..]);
      if m.number < cs[0].number then
        var i :| 0 <= i < |cs[1..]| && cs[1..][i] == m && forall j | 0 <= j < i :: cs[1..][j].number > m.number;
        assert cs[i + 1] == m;
        m
      else
        cs[0]
  }

  /** Strict lexicographic order on ids by character code, which stands in
      for `localeCompare`. */
  predicate IdBefore(a: Id, b: Id)
    decreases |a|
  {
    if |a| == 0 then |b| > 0
    else if |b| == 0 then false
    else if a[0] == b[0] then IdBefore(a[1..], b[1..])
    else a[0] < b[0]
  }

  lemma {:induction false} IdBeforeIrreflexive(a: Id)
    ensures !IdBefore(a, a)
  {
    if |a| > 0 {
      IdBeforeIrreflexive(a[1..]);
    }
  }

  /** Any two distinct ids are ordered one way or the other, never both. */
  lemma {:induction false} IdBeforeTotal(a: Id, b: Id)
    ensures a != b ==> IdBefore(a, b) || IdBefore(b, a)
    ensures !(IdBefore(a, b) && IdBefore(b, a))
    decreases |a|
  {
    if |a| > 0 && |b| > 0 && a[0] == b[0] {
      IdBeforeTotal(a[1..], b[1..]);
      if a != b {
        assert a == [a[0]] + a[1..] && b == [b[0]] + b[1..];
      }
    }
  }

  lemma {:induction false} IdBeforeTransitive(a: Id, b: Id, c: Id)
    requires IdBefore(a, b) && IdBefore(b, c)
    ensures IdBefore(a, c)
    decreases |a|
  {
    if |a| > 0 && a[0] == b[0] && b[0] == c[0] {
      IdBeforeTransitive(a[1..], b[1..], c[1..]);
    }
  }

  /** The Finish a stable sort by id puts first. */
  function FirstSmallestId(fs: seq<CourseElement>): (f: CourseElement)
    requires |fs| > 0
    ensures f in fs
    ensures forall d | d in fs :: !IdBefore(d.id, f.id)
    ensures exists i | 0 <= i < |fs| :: (fs[i] == f && forall j | 0 <= j < i :: IdBefore(f.id, fs[j].id))
  {
    if |fs| == 1 then
      IdBeforeIrreflexive(fs[0].id);
      fs[0]
    else
      var m := FirstSmallestId(fs[1..]);
      if IdBefore(m.id, fs[0].id) then
        var i :| 0 <= i < |fs[1..]| && fs[1..][i] == m && forall j | 0 <= j < i :: IdBefore(m.id, fs[1..][j].id);
        assert fs[i + 1] == m;
        IdBeforeTotal(m.id, fs[0].id);
        m
      else
        SmallestKept(fs, m);
        fs[0]
  }

  lemma SmallestKept(fs: seq<CourseElement>, m: CourseElement)
    requires |fs| > 1
    requires forall d | d in fs[1..] :: !IdBefore(d.id, m.id)
    requires !IdBefore(m.id, fs[0].id)
    ensures forall d | d in fs :: !IdBefore(d.id, fs[0].id)
  {
    IdBeforeIrreflexive(fs[0].id);
    forall d | d in fs[1..]
      ensures !IdBefore(d.id, fs[0].id)
    {
      if IdBefore(d.id, fs[0].id) {
        IdBeforeTotal(m.id, fs[0].id);
        if m.id != fs[0].id {
          IdBeforeTransitive(d.id, fs[0].id, m.id);
        }
      }
    }
  }

  /** Everything collected is the far end of a touching Leg of `scan`. */
  lemma {:induction false} ConnectedSound(scan: seq<CourseElement>, startId: Id, all: seq<CourseElement>,
                                          kind: TargetKind, c: CourseElement)
    requires c in Connected(scan, startId, all, kind)
    ensures exists leg | leg in scan && leg.References(startId) :: FarElement(leg, startId, all) == Some(c)
  {
    var leg := scan[0];
    if leg.References(startId) && FarElement(leg, startId, all) == Some(c) {
    } else {
      ConnectedSound(scan[1..], startId, all, kind, c);
      var l :| l in scan[1..] && l.References(startId) && FarElement(l, startId, all) == Some(c);
      assert l in scan;
    }
  }

  /** The Legs of the course itself give exactly the connected elements. */
  lemma ConnectedIff(all: seq<CourseElement>, startId: Id, kind: TargetKind)
    ensures forall e :: e in Connected(all, startId, all, kind) <==> ConnectedTo(all, startId, e) && OfKind(e, kind)
  {
    forall e | e in Connected(all, startId, all, kind)
      ensures ConnectedTo(all, startId, e)
    {
      ConnectedSound(all, startId, all, kind, e);
    }
  }

  /** The element the Start with `startId` is turned toward, if any: the
      first of the lowest-numbered connected Controls, else the connected
      Finish whose id sorts first (`TargetChoice` states the choice). */
  function OrientationTarget(startId: Id, all: seq<CourseElement>): (t: Option<CourseElement>)
    ensures t.None? <==> |Connected(all, startId, all, ControlKind)| == 0 && |Connected(all, startId, all, FinishKind)| == 0
    ensures t.Some? ==> t.value.Control? || t.value.Finish?
  {
    var controls := Connected(all, startId, all, ControlKind);
    var finishes := Connected(all, startId, all, FinishKind);
    if |controls| > 0 then
      Some(FirstLowestNumber(controls))
    else if |finishes| > 0 then
      Some(FirstSmallestId(finishes))
    else
      None
  }

  /** The target among the connected elements in Leg order: a connected
      Control when there is one, of the lowest number and the first of
      those; otherwise a connected Finish with no id sorting before its. */
  lemma TargetChoice(startId: Id, all: seq<CourseElement>)
    ensures var t := OrientationTarget(startId, all);
      var cs, fs := Connected(all, startId, all, ControlKind), Connected(all, startId, all, FinishKind);
      && (t.Some? && t.value.Control? ==>
            && t.value in cs
            && (forall c | c in cs :: t.value.number <= c.number)
            && exists i | 0 <= i < |cs| :: (cs[i] == t.value && forall j | 0 <= j < i :: cs[j].Control? && cs[j].number > t.value.number))
      && (t.Some? && !t.value.Control? ==>
            |cs| == 0 && t.value in fs && forall f | f in fs :: !IdBefore(f.id, t.value.id))
  {
  }

  /** The choice in terms of the course alone: the target is connected; no
      target means nothing Control- or Finish-like is connected; a Control
      beats any Finish, a lower number beats a higher one, and a Finish
      with a smaller id beats a larger one. */
  lemma TargetIsBestConnected(startId: Id, all: seq<CourseElement>)
    ensures var t := OrientationTarget(startId, all);
      && (t.Some? ==> t.value in all && (t.value.Control? || t.value.Finish?) && ConnectedTo(all, startId, t.value))
      && (t.None? <==> forall e | ConnectedTo(all, startId, e) :: !(e.Control? || e.Finish?))
      && (t.Some? && t.value.Finish? ==> forall e | ConnectedTo(all, startId, e) :: !e.Control?)
      && (t.Some? && t.value.Control? ==>
            forall e | ConnectedTo(all, startId, e) && e.Control? :: t.value.number <= e.number)
      && (t.Some? && t.value.Finish? ==>
            forall e | ConnectedTo(all, startId, e) && e.Finish? :: !IdBefore(e.id, t.value.id))
  {
    var t := OrientationTarget(startId, all);
    var cs, fs := Connected(all, startId, all, ControlKind), Connected(all, startId, all, FinishKind);
    TargetChoice(startId, all);
    ConnectedIff(all, startId, ControlKind);
    ConnectedIff(all, startId, FinishKind);
    if t.None? {
      forall e | ConnectedTo(all, startId, e) ensures !(e.Control? || e.Finish?) {
        assert e !in cs && e !in fs;
        assert !OfKind(e, ControlKind) && !OfKind(e, FinishKind);
      }
    } else {
      assert t.value in cs || t.value in fs;
    }
  }

  /** A Start no Leg touches has no target. */
  lemma UntouchedStartHasNoTarget(startId: Id, all: seq<CourseElement>)
    requires forall e | e in all :: !e.References(startId)
    ensures OrientationTarget(startId, all).None?
  {
    var cs, fs := Connected(all, startId, all, ControlKind), Connected(all, startId, all, FinishKind);
    if |cs| > 0 {
      ConnectedSound(all, startId, all, ControlKind, cs[0]);
    }
    if |fs| > 0 {
      ConnectedSound(all, startId, all, FinishKind, fs[0]);
    }
  }

  /** `getRotationAngleForStart`: zero without a target, otherwise the angle
      of the Start-to-target vector plus a quarter turn. */
  function RotationFor(startId: Id, center: Point, all: seq<CourseElement>, m: Transcendentals): real {
    RotationToward(OrientationTarget(startId, all), center, m)
  }

  /** The angle for a Start at `center` turned toward `target`. */
  function RotationToward(target: Option<CourseElement>, center: Point, m: Transcendentals): real
    requires target.Some? ==> target.value.Control? || target.value.Finish?
  {
    match target
    case None => 0.0
    case Some(t) => m.atan2(t.center.y - center.y, t.center.x - center.x) + HalfPi
  }

  /** Every Start's stored angle is the one its connections call for. */
  ghost predicate StartsOriented(els: seq<CourseElement>, m: Transcendentals) {
    forall i | 0 <= i < |els| && els[i].Start? ::
      els[i].rotationAngle == Some(RotationFor(els[i].id, els[i].center, els, m))
  }

  /** Two courses that differ at most in the stored angles of their Starts. */
  ghost predicate SameButStartRotations(a: seq<CourseElement>, b: seq<CourseElement>) {
    && |a| == |b|
    && forall i | 0 <= i < |a| ::
         a[i] == b[i] || (a[i].Start? && b[i].Start? && a[i].id == b[i].id && a[i].center == b[i].center)
  }

  lemma {:induction false} SameButStartRotationsTail(a: seq<CourseElement>, b: seq<CourseElement>)
    requires SameButStartRotations(a, b) && |a| > 0
    ensures SameButStartRotations(a[1..], b[1..])
  {
    forall i | 0 <= i < |a[1..]|
      ensures a[1..][i] == b[1..][i] ||
        (a[1..][i].Start? && b[1..][i].Start? && a[1..][i].id == b[1..][i].id && a[1..][i].center == b[1..][i].center)
    {
      assert a[1..][i] == a[i + 1] && b[1..][i] == b[i + 1];
    }
  }

  /** Looking an id up finds the same position, and the same element unless
      it is a Start. */
  lemma {:induction false} FindIgnoresStartRotations(a: seq<CourseElement>, b: seq<CourseElement>, id: Id)
    requires SameButStartRotations(a, b)
    ensures FindIndex(a, id) == FindIndex(b, id)
    ensures Find(a, id).Some? == Find(b, id).Some?
    ensures Find(a, id).Some? && !Find(a, id).value.Start? ==> Find(a, id) == Find(b, id)
    ensures Find(a, id).Some? ==> (Find(a, id).value.Start? <==> Find(b, id).value.Start?)
  {
    if |a| > 0 && a[0].id != id {
      SameButStartRotationsTail(a, b);
      FindIgnoresStartRotations(a[1..], b[1..], id);
    }
  }

  lemma {:induction false} ConnectedIgnoresStartRotations(sa: seq<CourseElement>, sb: seq<CourseElement>,
                                                          startId: Id, a: seq<CourseElement>, b: seq<CourseElement>,
                                                          kind: TargetKind)
    requires SameButStartRotations(sa, sb) && SameButStartRotations(a, b)
    ensures Connected(sa, startId, a, kind) == Connected(sb, startId, b, kind)
  {
    if |sa| > 0 {
      SameButStartRotationsTail(sa, sb);
      ConnectedIgnoresStartRotations(sa[1..], sb[1..], startId, a, b, kind);
      if sa[0].Leg? {
        assert sa[0] == sb[0];
        FindIgnoresStartRotations(a, b, OtherEnd(sa[0], startId));
      }
    }
  }

  /** A Start's target, and so its angle, does not depend on the angles
      stored in any Start. Recomputing several Starts one after another or
      all against the same list therefore gives the same angles. */
  lemma TargetIgnoresStartRotations(a: seq<CourseElement>, b: seq<CourseElement>, startId: Id)
    requires SameButStartRotations(a, b)
    ensures OrientationTarget(startId, a) == OrientationTarget(startId, b)
  {
    ConnectedIgnoresStartRotations(a, b, startId, a, b, ControlKind);
    ConnectedIgnoresStartRotations(a, b, startId, a, b, FinishKind);
  }

  lemma RotationIgnoresStartRotations(a: seq<CourseElement>, b: seq<CourseElement>, id: Id, center: Point, m: Transcendentals)
    requires SameButStartRotations(a, b)
    ensures RotationFor(id, center, a, m) == RotationFor(id, center, b, m)
  {
    TargetIgnoresStartRotations(a, b, id);
  }

  /** Tie-break between Controls: with two Controls of the same lowest
      number, the one at the end of the earlier Leg is the target. */
  lemma ControlTieBreakExample()
    ensures var s := Start("s", Point(0.0, 0.0), None);
      var a := Control("a", Point(1.0, 0.0), 3, ControlDescription("3", "", "", "", "", "", "", ""));
      var b := Control("b", Point(0.0, 1.0), 3, ControlDescription("3", "", "", "", "", "", "", ""));
      var els := [s, a, b, Leg("l", "s", "b", Solid), Leg("m", "a", "s", Solid)];
      OrientationTarget("s", els) == Some(b)
  {
    var s := Start("s", Point(0.0, 0.0), None);
    var a := Control("a", Point(1.0, 0.0), 3, ControlDescription("3", "", "", "", "", "", "", ""));
    var b := Control("b", Point(0.0, 1.0), 3, ControlDescription("3", "", "", "", "", "", "", ""));
    var els := [s, a, b, Leg("l", "s", "b", Solid), Leg("m", "a", "s", Solid)];
    TwoLegs(els, ControlKind, b, a);
    assert [] + [b] + [a] == [b, a];
    assert FirstLowestNumber([b, a]) == b;
  }

  /** With no Control connected, the Finish whose id sorts first is the
      target whatever the Leg order. */
  lemma FinishTieBreakExample()
    ensures var s := Start("s", Point(0.0, 0.0), None);
      var fb := Finish("fb", Point(1.0, 0.0));
      var fa := Finish("fa", Point(0.0, 1.0));
      var els := [s, fb, fa, Leg("l", "s", "fb", Solid), Leg("m", "fa", "s", Dashed)];
      OrientationTarget("s", els) == Some(fa)
  {
    var s := Start("s", Point(0.0, 0.0), None);
    var fb := Finish("fb", Point(1.0, 0.0));
    var fa := Finish("fa", Point(0.0, 1.0));
    var els := [s, fb, fa, Leg("l", "s", "fb", Solid), Leg("m", "fa", "s", Dashed)];
    TwoLegs(els, FinishKind, fb, fa);
    TwoLegs(els, ControlKind, fb, fa);
    assert IdBefore("fa", "fb");
    assert FirstSmallestId([fb, fa]) == fa;
  }

  /** The examples' shape: a Start, two other elements and a Leg from the
      Start to the first of them and one from the second to the Start. */
  lemma TwoLegs(els: seq<CourseElement>, kind: TargetKind, x: CourseElement, y: CourseElement)
    requires |els| == 5 && els[0].Start?
    requires (els[1] == x && els[2] == y) || (els[1] == y && els[2] == x)
    requires x.id != els[0].id && y.id != els[0].id && x.id != y.id
    requires !x.Leg? && !y.Leg?
    requires els[3].Leg? && els[3].fromElementId == els[0].id && els[3].toElementId == x.id
    requires els[4].Leg? && els[4].fromElementId == y.id && els[4].toElementId == els[0].id
    ensures Connected(els, els[0].id, els, kind) ==
      (if OfKind(x, kind) then [x] else []) + (if OfKind(y, kind) then [y] else [])
  {
    var sid := els[0].id;
    assert Find(els, x.id) == Some(x);
    assert Find(els, y.id) == Some(y);
    assert els[4..][0] == els[4] && els[4..][1..] == [];
    assert els[4].References(sid);
    assert FarElement(els[4], sid, els) == Some(y);
    assert els[3..][0] == els[3] && els[3..][1..] == els[4..];
    assert els[3].References(sid);
    assert FarElement(els[3], sid, els) == Some(x);
    assert els[2..][1..] == els[3..];
    assert els[1..][1..] == els[2..];
    assert Connected(els[4..][1..], sid, els, kind) == [];
    var c4 := Connected(els[4..], sid, els, kind);
    if OfKind(y, kind) {
      assert c4 == [y] + [];
    } else {
      assert c4 == [];
    }
    var c3 := Connected(els[3..], sid, els, kind);
    assert c3 == (if OfKind(x, kind) then [x] else []) + c4;
    assert Connected(els[2..], sid, els, kind) == c3;
    assert Connected(els[1..], sid, els, kind) == c3;
  }
}
