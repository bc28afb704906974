/** Real-number helpers and the transcendental functions the program takes
    from `Math`. The model never computes a square root, an arc tangent, a
    sine or a cosine itself: they arrive as a `Transcendentals` record, and a
    lemma that needs a property of one of them says so in its requires. */
module Numerics {

  /** `Math.sqrt`, `Math.atan2(dy, dx)`, `Math.cos` and `Math.sin`. */
  datatype Transcendentals = Transcendentals(
    sqrt: real -> real,
    atan2: (real, real) -> real,
    cos: real -> real,
    sin: real -> real)

  /** `sqrt` is the non-negative square root on the non-negative reals. */
  ghost predicate SqrtSound(m: Transcendentals) {
    forall x: real :: x >= 0.0 ==> m.sqrt(x) >= 0.0 && m.sqrt(x) * m.sqrt(x) == x
  }

  /** `Math.PI / 2` as the double the program computes. */
  const HalfPi: real := 1.5707963267948966

  function Max(a: real, b: real): (r: real)
    ensures r >= a && r >= b
    ensures r == a || r == b
  {
    if a >= b then a else b
  }

  function Min(a: real, b: real): (r: real)
    ensures r <= a && r <= b
    ensures r == a || r == b
  {
    if a <= b then a else b
  }

  function Square(x: real): (r: real)
    ensures r >= 0.0
  {
    x * x
  }

  /** For a non-negative `d`, comparing `sqrt(d)` with a bound is the same as
      comparing `d` with the bound squared, provided the bound is not
      negative; a negative bound is never reached. This is why the model may
      compare squared distances where the program compares distances. */
  lemma SqrtAtMostIff(m: Transcendentals, d: real, bound: real)
    requires SqrtSound(m)
    requires d >= 0.0
    ensures m.sqrt(d) <= bound <==> (bound >= 0.0 && d <= bound * bound)
  {
    var s := m.sqrt(d);
    assert s >= 0.0 && s * s == d;
    if bound >= 0.0 {
      if s <= bound {
        MulMonotone(s, bound, s);
        MulMonotone(s, bound, bound);
      } else {
        MulMonotone(bound, s, bound);
        MulStrict(bound, s, s);
        calc {
          bound * bound;
        <= s * bound;
        == bound * s;
        < s * s;
        == d;
        }
      }
    }
  }

  lemma MulMonotone(a: real, b: real, c: real)
    requires a <= b && c >= 0.0
    ensures a * c <= b * c
  {
    assert (b - a) * c >= 0.0;
  }

  lemma MulStrict(a: real, b: real, c: real)
    requires a < b && c > 0.0
    ensures a * c < b * c
  {
    assert (b - a) * c > 0.0;
  }
}
