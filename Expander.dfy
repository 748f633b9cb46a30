/** The in-place implementation of `adjust_bounding_boxes_final`: two copies
    in arrays, each relaxed by sweeps that replace one element at a time, and
    the final zip of the two.  Each method is proved equal to the functional
    specification in module Expansion. */
module Expander {
  import opened Geometry
  import opened Regions
  import opened Expansion

  /** The inner `for j` loop: does region `i` meet any other region? */
  method FindOverlap(a: array<Region>, i: nat) returns (found: bool)
    requires i < a.Length
    ensures found <==> OverlapsOther(a[..], i)
  {
    found := false;
    var j := 0;
    while j < a.Length
      invariant 0 <= j <= a.Length
      invariant !found
      invariant forall k :: 0 <= k < j && k != i ==> !RectOverlap(a[i].box, a[k].box)
    {
      if j != i && RectOverlap(a[i].box, a[j].box) {
        found := true;
        assert a[..][j] == a[j];
        return;
      }
      j := j + 1;
    }
  }

  /** One sweep (`for i, box1 in enumerate(copy)`), replacing element `i` in
      place; the flag is `changes_made`. */
  method SweepInPlace(a: array<Region>, axis: Axis, limit: int) returns (changesMade: bool)
    modifies a
    ensures a[..] == Sweep(old(a[..]), axis, limit)
    ensures changesMade <==> a[..] != old(a[..])
  {
    ghost var orig := a[..];
    changesMade := false;
    var i := 0;
    while i < a.Length
      invariant 0 <= i <= a.Length
      invariant SweepFrom(a[..], i, axis, limit) == Sweep(orig, axis, limit)
      invariant a[i..] == orig[i..]
      invariant changesMade <==> a[..] != orig
    {
      ghost var before := a[..];
      var box1 := a[i];
      if !Frozen(box1) {
        var intersectionFound := FindOverlap(a, i);
        if !intersectionFound {
          var grown := Grow(box1, axis, limit);
          if grown != box1 {
            a[i] := grown;
            changesMade := true;
            assert a[..][i] != orig[i];
          }
          assert a[..] == Step(before, i, axis, limit);
        }
      }
      assert a[..] == Step(before, i, axis, limit);
      assert a[i + 1..] == before[i + 1..];
      assert before[i + 1..] == before[i..][1..] && orig[i + 1..] == orig[i..][1..];
      i := i + 1;
    }
  }

  /** `while True: ... if not changes_made: break`. */
  method RelaxInPlace(a: array<Region>, axis: Axis, limit: int)
    modifies a
    ensures a[..] == Relaxed(old(a[..]), axis, limit)
  {
    ghost var orig := a[..];
    while true
      invariant Relaxed(a[..], axis, limit) == Relaxed(orig, axis, limit)
      decreases Measure(a[..], axis, limit)
    {
      ghost var before := a[..];
      var changesMade := SweepInPlace(a, axis, limit);
      if !changesMade {
        break;
      }
      SweepMeasure(before, 0, axis, limit);
    }
  }

  /** `adjust_bounding_boxes_final(boxes, image_bbox)`. */
  method AdjustBoundingBoxesFinal(boxes: seq<Region>, page: Box) returns (finalBoxes: seq<Region>)
    ensures finalBoxes == Adjusted(boxes, page)
  {
    var vertical := new Region[|boxes|](k requires 0 <= k < |boxes| => boxes[k]);
    var horizontal := new Region[|boxes|](k requires 0 <= k < |boxes| => boxes[k]);
    assert vertical[..] == boxes && horizontal[..] == boxes;
    RelaxInPlace(vertical, Vertical, Limit(page, Vertical));
    RelaxInPlace(horizontal, Horizontal, Limit(page, Horizontal));
    ghost var expected := Merge(vertical[..], horizontal[..]);
    finalBoxes := [];
    var k := 0;
    while k < vertical.Length
      invariant 0 <= k <= vertical.Length
      invariant finalBoxes == expected[..k]
    {
      var v, h := vertical[k], horizontal[k];
      var finalBox := if Frozen(v) then v
        else Region(Box(h.box.x1, v.box.y1, h.box.x2, v.box.y2), v.kind, v.id, v.position);
      finalBoxes := finalBoxes + [finalBox];
      k := k + 1;
    }
    assert expected[..k] == expected;
  }
}
