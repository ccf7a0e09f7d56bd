/** Axis-aligned rectangles and points shared by every layer of the scene graph. */
module Geometry {
  import opened Wrappers

  /** A `{left, top, width, height}` bounds record. */
  datatype Rect = Rect(left: real, top: real, width: real, height: real) {
    function Right(): real { left + width }
    function Bottom(): real { top + height }
  }

  datatype Point = Point(x: real, y: real)

  /** The overlap test used by the stage's and the collision module's
      `getChildrenUnderPoint` and by src/ZSprite.js `collidesWith`:
      touching edges do not overlap. */
  predicate StrictOverlap(a: Rect, b: Rect) {
    a.left < b.Right() && a.Right() > b.left &&
    a.top < b.Bottom() && a.Bottom() > b.top
  }

  /** Open-interval overlap on one axis. */
  predicate OpenIntervalsMeet(lo1: real, hi1: real, lo2: real, hi2: real) {
    lo1 < hi2 && lo2 < hi1
  }

  /** `StrictOverlap` is overlap of the open intervals on both axes, so it is symmetric. */
  lemma StrictOverlapIsOpenIntervals(a: Rect, b: Rect)
    ensures StrictOverlap(a, b) <==>
            OpenIntervalsMeet(a.left, a.Right(), b.left, b.Right()) &&
            OpenIntervalsMeet(a.top, a.Bottom(), b.top, b.Bottom())
    ensures StrictOverlap(a, b) == StrictOverlap(b, a)
  {
  }

  /** The hit test of `handleInteraction`: the point lies in the closed box. */
  predicate ContainsClosed(r: Rect, x: real, y: real) {
    x >= r.left && x <= r.Right() && y >= r.top && y <= r.Bottom()
  }

  /**
   * Truncation toward zero, the integer part of `x`: how a canvas reads a
   * finite number passed for a `long` argument, and what `parseInt` gives
   * for a number it sees written without an exponent (`ParseIntOfNumber`).
   */
  function Trunc(x: real): (n: int)
    ensures x >= 0.0 ==> 0 <= n && n as real <= x < n as real + 1.0
    ensures x < 0.0 ==> n <= 0 && n as real - 1.0 < x <= n as real
  {
    if x >= 0.0 then x.Floor else -((-x).Floor)
  }

  /** The smallest magnitude JavaScript writes out without an exponent, 1e-6. */
  const PlainLow: real := 0.000001

  /** The magnitude from which JavaScript writes a number with an exponent, 1e21. */
  const PlainHigh: real := 1000000000000000000000.0

  /**
   * The first significant decimal digit of a number of at least 1: dividing
   * by a power of ten keeps it, so large numbers drop ten digits at a time.
   */
  function LeadingDigitAbove(x: real): (d: int)
    requires x >= 1.0
    ensures 1 <= d <= 9
    ensures x < 10.0 ==> d as real <= x < d as real + 1.0
    decreases x.Floor
  {
    if x < 10.0 then x.Floor
    else if x >= 10000000000.0 then LeadingDigitAbove(x / 10000000000.0)
    else LeadingDigitAbove(x / 10.0)
  }

  /** The first significant decimal digit of a positive number. */
  function LeadingDigit(x: real): (d: int)
    requires x > 0.0
    ensures 1 <= d <= 9
    ensures x >= 1.0 ==> d == LeadingDigitAbove(x)
    decreases if x >= 1.0 then 0 else (1.0 / x).Floor
  {
    if x >= 1.0 then LeadingDigitAbove(x) else ReciprocalShrinks(x); LeadingDigit(x * 10.0)
  }

  /** Scaling a number below 1 up by ten lowers the integer part of its reciprocal. */
  lemma ReciprocalShrinks(x: real)
    requires 0.0 < x < 1.0
    ensures (1.0 / x).Floor >= 1
    ensures x * 10.0 < 1.0 ==> (1.0 / (x * 10.0)).Floor < (1.0 / x).Floor
  {
    var y := 1.0 / x;
    assert y * x == 1.0;
    assert y > 1.0;
    assert 1.0 / (x * 10.0) == y / 10.0;
  }

  /**
   * JavaScript's `parseInt` applied to a finite number: it reads the number's
   * string form. Between 1e-6 and 1e21 in magnitude that is plain decimal, so
   * the result is the truncation toward zero; outside it the string has an
   * exponent (`5e-7`, `1.5e+21`) and only its leading digit is read, with the
   * sign. The string form is taken to show the digits of `x` itself.
   */
  function ParseIntOfNumber(x: real): (n: int)
    ensures x == 0.0 || PlainLow <= x < PlainHigh || -PlainHigh < x <= -PlainLow ==> n == Trunc(x)
    ensures 0.0 < x < PlainLow || x >= PlainHigh ==> 1 <= n <= 9
    ensures -PlainLow < x < 0.0 || x <= -PlainHigh ==> -9 <= n <= -1
  {
    if x == 0.0 || PlainLow <= x < PlainHigh || -PlainHigh < x <= -PlainLow then Trunc(x)
    else if x > 0.0 then LeadingDigit(x)
    else -LeadingDigit(-x)
  }

  /** The readings of the string forms: `123.9` reads 123, `-0.5` reads 0, `5e-7` reads 5 and `1.5e+21` reads 1. */
  lemma ParseIntOfNumberForms()
    ensures ParseIntOfNumber(123.9) == 123 && ParseIntOfNumber(-0.5) == 0 && ParseIntOfNumber(0.5) == 0
    ensures ParseIntOfNumber(0.0000005) == 5 && ParseIntOfNumber(-0.0000005) == -5
    ensures ParseIntOfNumber(1500000000000000000000.0) == 1 && ParseIntOfNumber(-25000000000000000000000.0) == -2
  {
  }

  /** The clamp of `keepInBounds`: above 0 goes to 0, below `min` goes to `min`. */
  function ClampToStage(v: real, min: real): (r: real)
    ensures min <= 0.0 ==> min <= r <= 0.0
    ensures (if min < 0.0 then min else 0.0) <= r <= (if min < 0.0 then 0.0 else min)
    ensures min <= v <= 0.0 ==> r == v
  {
    if v > 0.0 then 0.0 else if v < min then min else v
  }

  /** Overlap of closed boxes: touching edges meet. The test of the
      distribution build's `collidesWith`. */
  predicate ClosedOverlap(a: Rect, b: Rect) {
    !(a.Bottom() < b.top || a.top > b.Bottom() || a.Right() < b.left || a.left > b.Right())
  }

  /** Boxes that touch along an edge or at a corner without overlapping. */
  predicate Abuts(a: Rect, b: Rect) {
    ClosedOverlap(a, b) && !StrictOverlap(a, b)
  }

  /** `ClosedOverlap` is overlap of the closed intervals on both axes; it is
      symmetric and weaker than `StrictOverlap`, and touching boxes meet. */
  lemma ClosedOverlapIsClosedIntervals(a: Rect, b: Rect)
    ensures ClosedOverlap(a, b) <==>
            a.left <= b.Right() && b.left <= a.Right() && a.top <= b.Bottom() && b.top <= a.Bottom()
    ensures ClosedOverlap(a, b) == ClosedOverlap(b, a)
    ensures StrictOverlap(a, b) ==> ClosedOverlap(a, b)
    ensures a.top == b.top && a.height == b.height && a.height >= 0.0 && a.width >= 0.0 && b.width >= 0.0 &&
            a.Right() == b.left ==>
            ClosedOverlap(a, b) && !StrictOverlap(a, b)
  {
  }

  /**
   * `collidesWithEdge` between distinct sprites: a one-sided test on a
   * single axis for edge 0 (left), 1 (above), 2 (right) or 3 (below) of
   * `self`. `None` is the thrown "invalid argument for edge"; a fractional
   * edge inside [0, 3] matches no case of the `switch` and gives false.
   */
  function EdgeTest(self: Rect, other: Rect, edge: real): (r: Option<bool>)
    ensures r == None <==> edge < 0.0 || edge > 3.0
    ensures edge == 0.0 ==> r == Some(self.left <= other.Right())
    ensures edge == 1.0 ==> r == Some(self.top <= other.Bottom())
    ensures edge == 2.0 ==> r == Some(self.Right() <= other.left)
    ensures edge == 3.0 ==> r == Some(self.Bottom() >= other.top)
    ensures 0.0 <= edge <= 3.0 && edge != 0.0 && edge != 1.0 && edge != 2.0 && edge != 3.0 ==> r == Some(false)
  {
    if edge < 0.0 || edge > 3.0 then None
    else if edge == 0.0 then Some(self.left <= other.left + other.width)
    else if edge == 1.0 then Some(self.top <= other.top + other.height)
    else if edge == 2.0 then Some(self.left + self.width <= other.left)
    else if edge == 3.0 then Some(self.top + self.height >= other.top)
    else Some(false)
  }

  /** Against a box that meets `self` strictly, the left, above and below
      edges report contact and the right edge does not. */
  lemma EdgesOfOverlap(self: Rect, other: Rect)
    requires StrictOverlap(other, self)
    ensures EdgeTest(self, other, 0.0) == Some(true)
    ensures EdgeTest(self, other, 1.0) == Some(true)
    ensures EdgeTest(self, other, 2.0) == Some(false)
    ensures EdgeTest(self, other, 3.0) == Some(true)
  {
  }

  function Max(a: real, b: real): (r: real)
    ensures r >= a && r >= b && (r == a || r == b)
  {
    if a >= b then a else b
  }

  function Min(a: real, b: real): (r: real)
    ensures r <= a && r <= b && (r == a || r == b)
  {
    if a <= b then a else b
  }

  /**
   * The box two boxes share: from the larger left and top to the smaller right
   * and bottom. Its points are exactly those lying in both boxes (none, when
   * they are apart and the extent goes negative).
   */
  function Overlap(a: Rect, b: Rect): (o: Rect)
    ensures o.left == Max(a.left, b.left) && o.top == Max(a.top, b.top)
    ensures o.Right() == Min(a.Right(), b.Right()) && o.Bottom() == Min(a.Bottom(), b.Bottom())
    ensures forall x, y :: ContainsClosed(o, x, y) <==> ContainsClosed(a, x, y) && ContainsClosed(b, x, y)
  {
    var l := Max(a.left, b.left);
    var t := Max(a.top, b.top);
    Rect(l, t, Min(a.Right(), b.Right()) - l, Min(a.Bottom(), b.Bottom()) - t)
  }

  /** `inner` lies in the closed box `outer`. */
  predicate Inside(inner: Rect, outer: Rect) {
    outer.left <= inner.left && inner.Right() <= outer.Right() &&
    outer.top <= inner.top && inner.Bottom() <= outer.Bottom()
  }
}
