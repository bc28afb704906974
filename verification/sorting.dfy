/** Controls ordered by number, as App.tsx sorts them with the comparator
    `(a, b) => a.number - b.number` before renumbering and before exporting
    descriptions. The sort is a stable insertion sort, as Array.prototype.sort
    is required to be stable. */
module ControlOrder {
  import opened Wrappers
  import opened CourseModel

  ghost predicate AllControls(cs: seq<CourseElement>) {
    forall c | c in cs :: c.Control?
  }

  ghost predicate SortedByNumber(cs: seq<CourseElement>)
    requires AllControls(cs)
  {
    forall i, j | 0 <= i < j < |cs| :: cs[i].number <= cs[j].number
  }

  /** The head of a sorted sequence is numbered no higher than any member. */
  lemma HeadIsLeast(sorted: seq<CourseElement>)
    requires AllControls(sorted) && SortedByNumber(sorted)
    ensures forall d | d in sorted :: sorted[0].number <= d.number
  {
    forall d | d in sorted ensures sorted[0].number <= d.number {
      var k :| 0 <= k < |sorted| && sorted[k] == d;
      if k > 0 {
        assert sorted[0].number <= sorted[k].number;
      }
    }
  }

  /** Puts `c` before the first Control numbered at least as high, so that
      it stays ahead of the equal ones that followed it. */
  function Insert(c: CourseElement, sorted: seq<CourseElement>): (r: seq<CourseElement>)
    requires c.Control? && AllControls(sorted) && SortedByNumber(sorted)
    ensures AllControls(r) && SortedByNumber(r)
    ensures multiset(r) == multiset(sorted) + multiset{c}
    ensures forall d | d in r :: d == c || d in sorted
  {
    if |sorted| == 0 || c.number <= sorted[0].number then
      var r := [c] + sorted;
      assert |sorted| > 0 ==> c.number <= sorted[0].number;
      HeadIsLeast(sorted);
      assert forall j | 0 < j < |r| :: r[j] in sorted;
      r
    else
      var rest := Insert(c, sorted[1..]);
      var head := sorted[0];
      HeadIsLeast(sorted);
      assert sorted == [head] + sorted[1..];
      assert forall d | d in sorted[1..] :: d in sorted;
      var r := [head] + rest;
      assert forall j | 0 < j < |r| :: r[j] in rest;
      r
  }

  /** The Controls numbered `n`, in their order. */
  function WithNumber(cs: seq<CourseElement>, n: int): seq<CourseElement> {
    if |cs| == 0 then []
    else (if cs[0].Control? && cs[0].number == n then [cs[0]] else []) + WithNumber(cs[1..], n)
  }

  /** Inserting `c` puts it ahead of the members numbered like it. */
  lemma {:induction false} InsertTies(c: CourseElement, sorted: seq<CourseElement>, n: int)
    requires c.Control? && AllControls(sorted) && SortedByNumber(sorted)
    ensures WithNumber(Insert(c, sorted), n) ==
      (if c.number == n then [c] else []) + WithNumber(sorted, n)
  {
    if |sorted| == 0 || c.number <= sorted[0].number {
      WithNumberCons(c, sorted, n);
    } else {
      var head, tail := sorted[0], sorted[1..];
      assert sorted == [head] + tail;
      InsertTies(c, tail, n);
      WithNumberCons(head, Insert(c, tail), n);
      WithNumberCons(head, tail, n);
      assert head.number < c.number;
    }
  }

  lemma WithNumberCons(x: CourseElement, t: seq<CourseElement>, n: int)
    ensures WithNumber([x] + t, n) == (if x.Control? && x.number == n then [x] else []) + WithNumber(t, n)
  {
    assert ([x] + t)[0] == x && ([x] + t)[1..] == t;
  }

  /** The Controls sorted by number, equal numbers in their original order:
      for every number, the Controls carrying it appear in the result in the
      order they had in `cs`. */
  function SortByNumber(cs: seq<CourseElement>): (r: seq<CourseElement>)
    requires AllControls(cs)
    ensures AllControls(r) && SortedByNumber(r)
    ensures multiset(r) == multiset(cs)
    ensures |r| == |cs|
    ensures forall n :: WithNumber(r, n) == WithNumber(cs, n)
  {
    if |cs| == 0 then []
    else
      assert cs == [cs[0]] + cs[1..];
      var rest := SortByNumber(cs[1..]);
      var r := Insert(cs[0], rest);
      assert |r| == |multiset(r)|;
      forall n ensures WithNumber(r, n) == WithNumber(cs, n) {
        InsertTies(cs[0], rest, n);
      }
      r
  }

  /** Sorting keeps exactly the same elements. */
  lemma SortKeepsElements(cs: seq<CourseElement>)
    requires AllControls(cs)
    ensures forall c :: c in SortByNumber(cs) <==> c in cs
  {
    var r := SortByNumber(cs);
    assert forall c :: c in r <==> c in multiset(r);
    assert forall c :: c in cs <==> c in multiset(cs);
  }

  /** Index of the first element with this id (`findIndex` on the sorted list). */
  function IndexOfId(cs: seq<CourseElement>, id: Id): (r: Option<nat>)
    ensures r.Some? ==> r.value < |cs| && cs[r.value].id == id
    ensures r.Some? ==> forall j | 0 <= j < r.value :: cs[j].id != id
    ensures r.None? <==> forall j | 0 <= j < |cs| :: cs[j].id != id
  {
    FindIndex(cs, id)
  }

  /** With unique ids among `cs`, a member is found at its own position in
      any reordering of `cs`. */
  lemma IndexOfMember(cs: seq<CourseElement>, sorted: seq<CourseElement>, c: CourseElement)
    requires UniqueIds(cs) && c in cs
    requires forall d :: d in sorted <==> d in cs
    ensures IndexOfId(sorted, c.id).Some?
    ensures sorted[IndexOfId(sorted, c.id).value] == c
  {
    var k :| 0 <= k < |sorted| && sorted[k] == c;
    var r := IndexOfId(sorted, c.id);
    assert r.Some?;
    var d := sorted[r.value];
    assert d in cs;
    var a :| 0 <= a < |cs| && cs[a] == d;
    var b :| 0 <= b < |cs| && cs[b] == c;
    assert a == b;
  }
}
