/** The box helpers of the page-processing step: the bounding box of a
    polygon that word detection returns, and the height and width of a
    box. Coordinates are integers. */
module BoundingBoxes {
  import opened Wrappers
  import opened Geometry

  datatype Point = Point(x: int, y: int)

  /** `min(values)`; the caller guarantees a non-empty list. */
  function MinOf(values: seq<int>): (m: int)
    requires values != []
    ensures m in values
    ensures forall v :: v in values ==> m <= v
  {
    if |values| == 1 then values[0]
    else
      var rest := MinOf(values[1..]);
      assert forall v :: v in values ==> v == values[0] || v in values[1..];
      if values[0] <= rest then values[0] else rest
  }

  /** `max(values)`; the caller guarantees a non-empty list. */
  function MaxOf(values: seq<int>): (m: int)
    requires values != []
    ensures m in values
    ensures forall v :: v in values ==> v <= m
  {
    if |values| == 1 then values[0]
    else
      var rest := MaxOf(values[1..]);
      assert forall v :: v in values ==> v == values[0] || v in values[1..];
      if values[0] >= rest then values[0] else rest
  }

  /** `[point[0] for point in polygon]`. */
  function XCoords(polygon: seq<Point>): (xs: seq<int>)
    ensures |xs| == |polygon| && forall i :: 0 <= i < |polygon| ==> xs[i] == polygon[i].x
  {
    seq(|polygon|, i requires 0 <= i < |polygon| => polygon[i].x)
  }

  /** `[point[1] for point in polygon]`. */
  function YCoords(polygon: seq<Point>): (ys: seq<int>)
    ensures |ys| == |polygon| && forall i :: 0 <= i < |polygon| ==> ys[i] == polygon[i].y
  {
    seq(|polygon|, i requires 0 <= i < |polygon| => polygon[i].y)
  }

  predicate Holds(b: Box, p: Point)
  {
    b.x1 <= p.x <= b.x2 && b.y1 <= p.y <= b.y2
  }

  /** `polygon_to_bbox`: the smallest box holding every point. An empty
      polygon has none (`min` of an empty list raises). */
  function PolygonToBbox(polygon: seq<Point>): (r: Option<Box>)
    ensures r.Some? <==> polygon != []
    ensures r.Some? ==> WellFormed(r.value)
    ensures r.Some? ==> forall p :: p in polygon ==> Holds(r.value, p)
  {
    if polygon == [] then None
    else
      var xs, ys := XCoords(polygon), YCoords(polygon);
      assert polygon[0].x in xs && polygon[0].y in ys;
      assert forall p :: p in polygon ==> p.x in xs && p.y in ys;
      Some(Box(MinOf(xs), MinOf(ys), MaxOf(xs), MaxOf(ys)))
  }

  /** The box is tight: each of its edges passes through a point of the
      polygon, and every box that holds all the points holds it. */
  lemma PolygonBboxTight(polygon: seq<Point>, other: Box)
    requires polygon != []
    ensures var b := PolygonToBbox(polygon).value;
      && (exists p :: p in polygon && p.x == b.x1)
      && (exists p :: p in polygon && p.y == b.y1)
      && (exists p :: p in polygon && p.x == b.x2)
      && (exists p :: p in polygon && p.y == b.y2)
    ensures (forall p :: p in polygon ==> Holds(other, p)) ==> Contains(other, PolygonToBbox(polygon).value)
  {
    var b := PolygonToBbox(polygon).value;
    var xs, ys := XCoords(polygon), YCoords(polygon);
    var i1: int :| 0 <= i1 < |xs| && xs[i1] == b.x1;
    var j1: int :| 0 <= j1 < |ys| && ys[j1] == b.y1;
    var i2: int :| 0 <= i2 < |xs| && xs[i2] == b.x2;
    var j2: int :| 0 <= j2 < |ys| && ys[j2] == b.y2;
    assert polygon[i1] in polygon && polygon[j1] in polygon && polygon[i2] in polygon && polygon[j2] in polygon;
  }

  /** `calculate_bbox_height`: `abs(y2 - y1)`. */
  function BboxHeight(b: Box): nat
  {
    Abs(b.y2 - b.y1)
  }

  /** `calculate_bbox_width`: `abs(x2 - x1)`. */
  function BboxWidth(b: Box): nat
  {
    Abs(b.x2 - b.x1)
  }

  /** Height and width do not depend on which of the two coordinates comes
      first, and for a well-formed box they are the plain differences. */
  lemma BboxExtents(x1: int, y1: int, x2: int, y2: int)
    ensures BboxHeight(Box(x1, y1, x2, y2)) == BboxHeight(Box(x2, y2, x1, y1))
    ensures BboxWidth(Box(x1, y1, x2, y2)) == BboxWidth(Box(x2, y2, x1, y1))
    ensures x1 <= x2 ==> BboxWidth(Box(x1, y1, x2, y2)) == x2 - x1
    ensures y1 <= y2 ==> BboxHeight(Box(x1, y1, x2, y2)) == y2 - y1
  {
  }

  /** The height and width of a polygon's box are its extents along y and
      along x. */
  lemma PolygonBboxExtents(polygon: seq<Point>)
    requires polygon != []
    ensures BboxHeight(PolygonToBbox(polygon).value) == MaxOf(YCoords(polygon)) - MinOf(YCoords(polygon))
    ensures BboxWidth(PolygonToBbox(polygon).value) == MaxOf(XCoords(polygon)) - MinOf(XCoords(polygon))
  {
    var b := PolygonToBbox(polygon).value;
    BboxExtents(b.x1, b.y1, b.x2, b.y2);
  }
}
