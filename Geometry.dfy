/** Integer page rectangles `[x1, y1, x2, y2]` and the three geometric tests
    of the layout engine: closed-interval overlap, full encapsulation, and
    translation between page and table-local coordinates. */
module Geometry {

  datatype Box = Box(x1: int, y1: int, x2: int, y2: int)

  /** Python's `abs` on integers. */
  function Abs(x: int): nat
  {
    if x < 0 then -x else x
  }

  /** Left/bottom edge not past the right/top edge. */
  predicate WellFormed(b: Box)
  {
    b.x1 <= b.x2 && b.y1 <= b.y2
  }

  /** `big` includes every point of `small`. */
  predicate Contains(big: Box, small: Box)
  {
    big.x1 <= small.x1 && small.x2 <= big.x2 && big.y1 <= small.y1 && small.y2 <= big.y2
  }

  /** The closed intervals `[a1, a2]` and `[b1, b2]` share a point. */
  predicate IntervalsMeet(a1: int, a2: int, b1: int, b2: int)
  {
    a1 <= b2 && b1 <= a2
  }

  /** `valueInRange`: a closed range test. */
  predicate ValueInRange(value: int, lo: int, hi: int)
  {
    lo <= value <= hi
  }

  /** `rectOverlap`: either left edge lies in the other box's closed
      horizontal span, and likewise vertically.  For well-formed boxes this
      is exactly "the closed rectangles meet", so boxes that only share an
      edge or a corner overlap. */
  function RectOverlap(a: Box, b: Box): (r: bool)
    ensures WellFormed(a) && WellFormed(b) ==>
      (r <==> IntervalsMeet(a.x1, a.x2, b.x1, b.x2) && IntervalsMeet(a.y1, a.y2, b.y1, b.y2))
  {
    (ValueInRange(a.x1, b.x1, b.x2) || ValueInRange(b.x1, a.x1, a.x2))
    && (ValueInRange(a.y1, b.y1, b.y2) || ValueInRange(b.y1, a.y1, a.y2))
  }

  /** The overlap test does not depend on argument order. */
  lemma RectOverlapSymmetric(a: Box, b: Box)
    ensures RectOverlap(a, b) == RectOverlap(b, a)
  {
  }

  /** `full_encapsulation(primary, secondary)`:
      `x11 <= x21 < x22 <= x12` and the same on y. */
  function FullEncapsulation(primary: Box, secondary: Box): (r: bool)
    ensures r ==> secondary.x1 < secondary.x2 && secondary.y1 < secondary.y2
    ensures r ==> Contains(primary, secondary) && WellFormed(primary)
  {
    primary.x1 <= secondary.x1 < secondary.x2 <= primary.x2
    && primary.y1 <= secondary.y1 < secondary.y2 <= primary.y2
  }

  /** An encapsulated box overlaps its encapsulating box. */
  lemma EncapsulationImpliesOverlap(primary: Box, secondary: Box)
    requires FullEncapsulation(primary, secondary)
    ensures RectOverlap(primary, secondary)
  {
  }

  /** Overlap survives enlarging both boxes. */
  lemma OverlapGrows(a: Box, b: Box, a': Box, b': Box)
    requires WellFormed(a) && WellFormed(b)
    requires Contains(a', a) && Contains(b', b)
    requires RectOverlap(a, b)
    ensures RectOverlap(a', b')
  {
    assert WellFormed(a') && WellFormed(b');
  }

  /** The open rectangles meet: a real (area) intersection, not a shared edge. */
  predicate InteriorsMeet(a: Box, b: Box)
  {
    a.x1 < b.x2 && b.x1 < a.x2 && a.y1 < b.y2 && b.y1 < a.y2
  }

  /** Shift a rectangle by `(dx, dy)`. */
  function Translate(b: Box, dx: int, dy: int): (r: Box)
    ensures r.x2 - r.x1 == b.x2 - b.x1 && r.y2 - r.y1 == b.y2 - b.y1
    ensures r.x1 - dx == b.x1 && r.y1 - dy == b.y1
  {
    Box(b.x1 + dx, b.y1 + dy, b.x2 + dx, b.y2 + dy)
  }

  /** Page -> local -> page and local -> page -> local are exact. */
  lemma TranslateRoundTrip(b: Box, dx: int, dy: int)
    ensures Translate(Translate(b, -dx, -dy), dx, dy) == b
    ensures Translate(Translate(b, dx, dy), -dx, -dy) == b
  {
  }
}
