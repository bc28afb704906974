/** The element model of `types.ts`: a course is a sequence of elements of
    five kinds. Legs refer to their endpoints by id only. */
module CourseModel {
  import opened Wrappers
  import Decimal

  type Id = string

  /** Map-space coordinates, fixed to the background image's resolution. */
  datatype Point = Point(x: real, y: real)

  datatype LegStyle = Solid | Dashed | Uncrossable

  datatype AreaKind = Forbidden | Corridor

  /** The eight columns of an IOF control description. */
  datatype ControlDescription = ControlDescription(
    aNumber: string,
    bCode: string,
    cWhichFeature: string,
    dFeatureDetail: string,
    eDimensions: string,
    fLocation: string,
    gBetweenObjects: string,
    hSpecialInstructions: string)

  /** A course element. A Start's `rotationAngle` is optional; `None` is an
      unoriented Start. */
  datatype CourseElement =
    | Start(id: Id, center: Point, rotationAngle: Option<real>)
    | Control(id: Id, center: Point, number: int, description: ControlDescription)
    | Finish(id: Id, center: Point)
    | Leg(id: Id, fromElementId: Id, toElementId: Id, style: LegStyle)
    | Area(id: Id, points: seq<Point>, kind: AreaKind)
  {
    /** The point symbols: the kinds that have a `center` and that a Leg may join. */
    predicate HasCenter() {
      Start? || Control? || Finish?
    }

    /** True of a Leg with `id` as either endpoint. */
    predicate References(endId: Id) {
      Leg? && (fromElementId == endId || toElementId == endId)
    }
  }

  /** The description a new Control starts with: its number, nothing else. */
  function DefaultControlDescription(n: int): (d: ControlDescription)
    ensures Decimal.ParseInt(d.aNumber) == Some(n)
    ensures d.bCode == d.cWhichFeature == d.dFeatureDetail == d.eDimensions == ""
    ensures d.fLocation == d.gBetweenObjects == d.hSpecialInstructions == ""
  {
    Decimal.ParseIntOfIntToString(n);
    ControlDescription(Decimal.IntToString(n), "", "", "", "", "", "", "")
  }

  /** Index of the first element with the given id (`Array.prototype.findIndex`). */
  function FindIndex(els: seq<CourseElement>, id: Id): (r: Option<nat>)
    ensures r.Some? ==> r.value < |els| && els[r.value].id == id
    ensures r.Some? ==> forall j | 0 <= j < r.value :: els[j].id != id
    ensures r.None? ==> forall j | 0 <= j < |els| :: els[j].id != id
  {
    if |els| == 0 then None
    else if els[0].id == id then Some(0)
    else match FindIndex(els[1..], id)
      case None => None
      case Some(k) => Some(k + 1)
  }

  /** The first element with the given id (`Array.prototype.find`). */
  function Find(els: seq<CourseElement>, id: Id): (r: Option<CourseElement>)
    ensures r.Some? ==> r.value in els && r.value.id == id
    ensures r.Some? ==> FindIndex(els, id).Some? && r.value == els[FindIndex(els, id).value]
    ensures r.None? <==> forall e | e in els :: e.id != id
  {
    match FindIndex(els, id)
    case None => None
    case Some(k) => Some(els[k])
  }

  /** Ids are unique across the course. */
  ghost predicate UniqueIds(els: seq<CourseElement>) {
    forall i, j | 0 <= i < j < |els| :: els[i].id != els[j].id
  }

  /** With unique ids, looking an element's id up finds that element. */
  lemma FindUnique(els: seq<CourseElement>, e: CourseElement)
    requires UniqueIds(els) && e in els
    ensures Find(els, e.id) == Some(e)
  {
    var k :| 0 <= k < |els| && els[k] == e;
    var r := FindIndex(els, e.id);
    assert r.Some? && r.value <= k;
    assert r.value == k;
  }

  /** The course has a point symbol with this id. */
  ghost predicate HasPointWithId(els: seq<CourseElement>, id: Id) {
    exists e :: e in els && e.HasCenter() && e.id == id
  }

  /** No Leg is left dangling: both endpoints are present point symbols. */
  ghost predicate NoDanglingLegs(els: seq<CourseElement>) {
    forall e | e in els && e.Leg? ::
      HasPointWithId(els, e.fromElementId) && HasPointWithId(els, e.toElementId)
  }

  /** The Controls of a course, in course order. */
  function ControlsOf(els: seq<CourseElement>): (cs: seq<CourseElement>)
    ensures |cs| <= |els|
    ensures forall c | c in cs :: c.Control? && c in els
    ensures forall e | e in els && e.Control? :: e in cs
  {
    if |els| == 0 then []
    else if els[0].Control? then [els[0]] + ControlsOf(els[1..])
    else ControlsOf(els[1..])
  }

  /** Taking the Controls keeps course order: it distributes over
      concatenation and keeps a single element exactly when it is a Control. */
  lemma {:induction false} ControlsOfConcat(a: seq<CourseElement>, b: seq<CourseElement>)
    ensures ControlsOf(a + b) == ControlsOf(a) + ControlsOf(b)
    ensures forall e :: ControlsOf([e]) == if e.Control? then [e] else []
  {
    ControlsOfSingle();
    if |a| > 0 {
      var t := a[1..];
      assert (a + b)[0] == a[0];
      assert (a + b)[1..] == t + b;
      ControlsOfConcat(t, b);
    } else {
      assert a + b == b;
    }
  }

  lemma ControlsOfSingle()
    ensures forall e :: ControlsOf([e]) == if e.Control? then [e] else []
  {
    forall e ensures ControlsOf([e]) == if e.Control? then [e] else [] {
      assert [e][1..] == [];
    }
  }

  /** Control numbers are exactly 1..N, each once, where N counts the Controls. */
  ghost predicate DenseNumbers(cs: seq<CourseElement>)
    requires forall c | c in cs :: c.Control?
  {
    && (forall i | 0 <= i < |cs| :: 1 <= cs[i].number <= |cs|)
    && (forall i, j | 0 <= i < j < |cs| :: cs[i].number != cs[j].number)
  }

  ghost predicate DenseNumbering(els: seq<CourseElement>) {
    DenseNumbers(ControlsOf(els))
  }

  /** Distinct numbers in 1..N over N Controls use every number in 1..N. */
  lemma DenseNumbersAreOnto(cs: seq<CourseElement>, k: int)
    requires forall c | c in cs :: c.Control?
    requires DenseNumbers(cs)
    requires 1 <= k <= |cs|
    ensures exists i :: 0 <= i < |cs| && cs[i].number == k
  {
    var used := set i | 0 <= i < |cs| :: cs[i].number;
    var all := Range(1, |cs|);
    InjectiveImageSize(cs, |cs|);
    RangeSize(|cs|);
    assert used <= all;
    if k !in used {
      assert used <= all - {k};
      assert |all - {k}| == |cs| - 1;
      SubsetSize(used, all - {k});
      assert false;
    }
  }

  lemma {:induction false} InjectiveImageSize(cs: seq<CourseElement>, n: nat)
    requires n <= |cs|
    requires forall c | c in cs :: c.Control?
    requires forall i, j | 0 <= i < j < |cs| :: cs[i].number != cs[j].number
    ensures |set i | 0 <= i < n :: cs[i].number| == n
  {
    if n > 0 {
      InjectiveImageSize(cs, n - 1);
      var prev := set i | 0 <= i < n - 1 :: cs[i].number;
      assert cs[n - 1].number !in prev;
      assert (set i | 0 <= i < n :: cs[i].number) == prev + {cs[n - 1].number};
    }
  }

  /** The integers from `lo` to `hi` inclusive. */
  function Range(lo: int, hi: int): (r: set<int>)
    ensures forall k :: k in r <==> lo <= k <= hi
    decreases hi - lo
  {
    if hi < lo then {} else Range(lo, hi - 1) + {hi}
  }

  lemma {:induction false} RangeSize(n: nat)
    ensures |Range(1, n)| == n
  {
    if n > 0 {
      RangeSize(n - 1);
      assert Range(1, n) == Range(1, n - 1) + {n};
    }
  }

  lemma SubsetSize<T>(a: set<T>, b: set<T>)
    requires a <= b
    ensures |a| <= |b|
  {
    assert b == a + (b - a);
  }

  /** One snapshot of the editor: the course, the selection and the name of
      the background file. */
  datatype CourseState = CourseState(
    elements: seq<CourseElement>,
    selectedElementId: Option<Id>,
    mapFileName: Option<string>)

  const InitialCourseState: CourseState := CourseState([], None, None)

  datatype MapScaleMode = NoScale | Ratio | ReferenceLength

  /** `MapScaleSettings`: the mode and the optional fields that go with it. */
  datatype MapScaleSettings = MapScaleSettings(
    mode: MapScaleMode,
    ratioValue: Option<int>,
    mapUnitsOnScreen: Option<real>,
    realWorldMeters: Option<real>)
}
