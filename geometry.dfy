/** Integer rectangles and the grid arithmetic the tile grid is built on.

    The source works on FloatRect and IntRect; this model keeps every tile-space
    coordinate an integer. The rectangle operations follow WebCore's geometry
    classes: `contains` compares the four edges, `intersect` collapses a
    non-overlapping result to the zero rectangle, and IntRect's `unite` ignores
    an empty operand and otherwise takes the bounding box. */
module Geometry {

  /** Origin and size. A rectangle built from two corners may have a negative
      width or height; such a rectangle contains no rectangle of positive size. */
  datatype Rect = Rect(x: int, y: int, width: int, height: int) {
    function MaxX(): int { x + width }
    function MaxY(): int { y + height }
  }

  datatype Size = Size(width: int, height: int)

  datatype Point = Point(x: int, y: int)

  /** FloatSize and FloatRect, for the content size and the content rectangle,
      which the contents scale makes fractional. */
  datatype FloatSize = FloatSize(width: real, height: real)

  datatype FloatRect = FloatRect(x: real, y: real, width: real, height: real)

  /** The default-constructed IntRect / FloatRect. */
  const EmptyRect := Rect(0, 0, 0, 0)

  function AsFloatRect(r: Rect): FloatRect
  {
    FloatRect(r.x as real, r.y as real, r.width as real, r.height as real)
  }

  predicate IsEmpty(r: Rect)
  {
    r.width <= 0 || r.height <= 0
  }

  predicate NonNegative(r: Rect)
  {
    0 <= r.x && 0 <= r.y && 0 <= r.width && 0 <= r.height
  }

  /** `a.contains(b)`: every edge of b lies on or inside the matching edge of a. */
  predicate Contains(a: Rect, b: Rect)
  {
    a.x <= b.x && b.MaxX() <= a.MaxX() && a.y <= b.y && b.MaxY() <= a.MaxY()
  }

  /** `intersection(a, b)`: the overlap, or the zero rectangle when there is none. */
  function Intersection(a: Rect, b: Rect): (r: Rect)
    ensures forall c :: !IsEmpty(c) ==> (Contains(r, c) <==> Contains(a, c) && Contains(b, c))
    ensures NonNegative(a) && NonNegative(b) ==> NonNegative(r)
  {
    var left := if a.x < b.x then b.x else a.x;
    var top := if a.y < b.y then b.y else a.y;
    var right := if a.MaxX() < b.MaxX() then a.MaxX() else b.MaxX();
    var bottom := if a.MaxY() < b.MaxY() then a.MaxY() else b.MaxY();
    if left >= right || top >= bottom then EmptyRect
    else Rect(left, top, right - left, bottom - top)
  }

  /** IntRect's `unite`: an empty operand is ignored, otherwise the bounding box. */
  function Unite(a: Rect, b: Rect): (r: Rect)
    ensures IsEmpty(b) ==> r == a
    ensures IsEmpty(a) && !IsEmpty(b) ==> r == b
    ensures !IsEmpty(a) && !IsEmpty(b) ==> Contains(r, a) && Contains(r, b)
    ensures !IsEmpty(a) && !IsEmpty(b) ==>
      forall c :: Contains(c, a) && Contains(c, b) ==> Contains(c, r)
  {
    if IsEmpty(b) then a
    else if IsEmpty(a) then b
    else
      var left := if a.x < b.x then a.x else b.x;
      var top := if a.y < b.y then a.y else b.y;
      var right := if a.MaxX() < b.MaxX() then b.MaxX() else a.MaxX();
      var bottom := if a.MaxY() < b.MaxY() then b.MaxY() else a.MaxY();
      Rect(left, top, right - left, bottom - top)
  }

  lemma {:induction false} ContainsTransitive(a: Rect, b: Rect, c: Rect)
    requires Contains(a, b) && Contains(b, c)
    ensures Contains(a, c)
  {
  }

  /** Uniting never loses a non-empty rectangle that was already covered. */
  lemma {:induction false} UniteGrows(a: Rect, b: Rect, c: Rect)
    requires !IsEmpty(c) && Contains(a, c)
    ensures Contains(Unite(a, b), c)
  {
  }

  // ---------------------------------------------------------------------------
  // Grid arithmetic on non-negative coordinates, where the source's float-to-int
  // truncation of `v / t` is the floor and of `(v + t - 1) / t` the ceiling.

  /** A coordinate on a grid line of step t. */
  predicate Aligned(x: int, t: int)
    requires t > 0
  {
    x % t == 0
  }

  lemma {:induction false} MultipleIsAligned(q: int, t: int)
    requires t > 0
    ensures Aligned(q * t, t)
  {
    var m := q * t;
    var d := q - m / t;
    assert m == (m / t) * t + m % t;
    assert d * t == m % t;
    if d >= 1 {
      AtLeastOneStep(d, t);
    } else if d <= -1 {
      AtLeastOneStep(-d, t);
    }
  }

  lemma {:induction false} AtLeastOneStep(d: int, t: int)
    requires t > 0 && d >= 1
    ensures d * t >= t
  {
    assert d * t == (d - 1) * t + t;
  }

  lemma {:induction false} NextAligned(x: int, t: int)
    requires t > 0 && Aligned(x, t)
    ensures Aligned(x + t, t)
  {
    var q := x / t;
    assert x == q * t;
    assert x + t == (q + 1) * t;
    MultipleIsAligned(q + 1, t);
  }

  lemma {:induction false} PositiveFactor(d: int, t: int)
    requires t > 0 && d * t > 0
    ensures d >= 1
  {
  }

  /** Two distinct grid lines are at least one step apart. */
  lemma {:induction false} AlignedGap(a: int, b: int, t: int)
    requires t > 0 && Aligned(a, t) && Aligned(b, t) && a < b
    ensures a + t <= b
  {
    var qa, qb := a / t, b / t;
    assert a == qa * t && b == qb * t;
    assert b - a == (qb - qa) * t;
    PositiveFactor(qb - qa, t);
    assert (qb - qa) * t == (qb - qa - 1) * t + t;
    assert (qb - qa - 1) * t >= 0;
  }

  /** Rounding down to the grid: the line at or below x, less than a step away. */
  lemma {:induction false} FloorToGrid(x: int, t: int)
    requires t > 0 && x >= 0
    ensures 0 <= (x / t) * t <= x < (x / t) * t + t
  {
  }

  /** Rounding up to the grid: the line at or above x, less than a step away. */
  lemma {:induction false} CeilToGrid(x: int, t: int)
    requires t > 0 && x >= 0
    ensures x <= ((x + t - 1) / t) * t < x + t
  {
  }

}
