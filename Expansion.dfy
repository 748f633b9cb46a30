/** `adjust_bounding_boxes_final`: every region not marked as a picture grows
    by one pixel per sweep, on one axis at a time, until it touches another
    region or the page edge.  Two independent copies are relaxed, one
    vertically and one horizontally, and each final box takes its x range
    from the horizontal copy and its y range from the vertical copy.

    This module is the functional specification; the array methods that
    implement it are in module Expander. */
module Expansion {
  import opened Geometry
  import opened Labels
  import opened Regions

  datatype Axis = Vertical | Horizontal

  /** The edge pushed toward 0 (`y1` or `x1`) and the edge pushed toward the
      page limit (`y2` or `x2`). */
  function Lo(r: Region, axis: Axis): int
  {
    if axis == Vertical then r.box.y1 else r.box.x1
  }

  function Hi(r: Region, axis: Axis): int
  {
    if axis == Vertical then r.box.y2 else r.box.x2
  }

  /** The page limit of an axis: `image_bbox[3]` for y, `image_bbox[2]` for x. */
  function Limit(page: Box, axis: Axis): int
  {
    if axis == Vertical then page.y2 else page.x2
  }

  /** Picture and Figure regions never grow (they still block others). */
  predicate Frozen(r: Region)
  {
    IsPictorial(r.kind)
  }

  /** One pixel outward on `axis`: the low edge moves down while above 0, the
      high edge moves up while below `limit`. */
  function Grow(r: Region, axis: Axis, limit: int): (g: Region)
    ensures Lo(g, axis) == (if Lo(r, axis) > 0 then Lo(r, axis) - 1 else Lo(r, axis))
    ensures Hi(g, axis) == (if Hi(r, axis) < limit then Hi(r, axis) + 1 else Hi(r, axis))
    ensures Lo(g, Other(axis)) == Lo(r, Other(axis)) && Hi(g, Other(axis)) == Hi(r, Other(axis))
    ensures g.kind == r.kind && g.id == r.id && g.position == r.position
  {
    var lo := if Lo(r, axis) > 0 then Lo(r, axis) - 1 else Lo(r, axis);
    var hi := if Hi(r, axis) < limit then Hi(r, axis) + 1 else Hi(r, axis);
    var b := r.box;
    var box := if axis == Vertical then Box(b.x1, lo, b.x2, hi) else Box(lo, b.y1, hi, b.y2);
    Region(box, r.kind, r.id, r.position)
  }

  function Other(axis: Axis): Axis
  {
    if axis == Vertical then Horizontal else Vertical
  }

  /** Region `i` meets (closed overlap) some other region of the same copy. */
  predicate OverlapsOther(s: seq<Region>, i: nat)
    requires i < |s|
  {
    exists j :: 0 <= j < |s| && j != i && RectOverlap(s[i].box, s[j].box)
  }

  /** Sitting at both page limits on `axis`: growth changes nothing. */
  predicate AtLimits(r: Region, axis: Axis, limit: int)
  {
    Lo(r, axis) <= 0 && Hi(r, axis) >= limit
  }

  /** The body of the sweep for region `i`, seeing the current state of the
      copy (earlier regions of the same sweep already updated). */
  function Step(s: seq<Region>, i: nat, axis: Axis, limit: int): (t: seq<Region>)
    requires i < |s|
    ensures |t| == |s|
    ensures forall k :: 0 <= k < |s| && k != i ==> t[k] == s[k]
  {
    if Frozen(s[i]) || OverlapsOther(s, i) then s
    else s[i := Grow(s[i], axis, limit)]
  }

  /** The sweep over regions `i..` of the copy, in index order. */
  function SweepFrom(s: seq<Region>, i: nat, axis: Axis, limit: int): (t: seq<Region>)
    requires i <= |s|
    ensures |t| == |s|
    decreases |s| - i
  {
    if i == |s| then s
    else SweepFrom(Step(s, i, axis, limit), i + 1, axis, limit)
  }

  function Sweep(s: seq<Region>, axis: Axis, limit: int): (t: seq<Region>)
    ensures |t| == |s|
  {
    SweepFrom(s, 0, axis, limit)
  }

  /** How far a region can still grow on `axis`. */
  function Slack(r: Region, axis: Axis, limit: int): nat
  {
    (if Hi(r, axis) < limit then limit - Hi(r, axis) else 0) + (if Lo(r, axis) > 0 then Lo(r, axis) else 0)
  }

  /** The termination measure of the fixed-point loop: total slack. */
  function Measure(s: seq<Region>, axis: Axis, limit: int): nat
  {
    if s == [] then 0
    else Measure(s[..|s| - 1], axis, limit) + Slack(s[|s| - 1], axis, limit)
  }

  lemma {:induction false} MeasureUpdate(s: seq<Region>, i: nat, g: Region, axis: Axis, limit: int)
    requires i < |s|
    ensures Measure(s[i := g], axis, limit) == Measure(s, axis, limit) - Slack(s[i], axis, limit) + Slack(g, axis, limit)
  {
    var n := |s| - 1;
    if i < n {
      MeasureUpdate(s[..n], i, g, axis, limit);
      assert s[i := g][..n] == s[..n][i := g];
    } else {
      assert s[i := g][..n] == s[..n];
    }
  }

  /** A step never increases the measure and strictly decreases it when it
      changes the copy. */
  lemma StepMeasure(s: seq<Region>, i: nat, axis: Axis, limit: int)
    requires i < |s|
    ensures Measure(Step(s, i, axis, limit), axis, limit) <= Measure(s, axis, limit)
    ensures Step(s, i, axis, limit) != s ==> Measure(Step(s, i, axis, limit), axis, limit) < Measure(s, axis, limit)
  {
    if !(Frozen(s[i]) || OverlapsOther(s, i)) {
      var g := Grow(s[i], axis, limit);
      MeasureUpdate(s, i, g, axis, limit);
      if g == s[i] {
        assert s[i := g] == s;
      }
    }
  }

  lemma {:induction false} SweepMeasure(s: seq<Region>, i: nat, axis: Axis, limit: int)
    requires i <= |s|
    ensures Measure(SweepFrom(s, i, axis, limit), axis, limit) <= Measure(s, axis, limit)
    ensures SweepFrom(s, i, axis, limit) != s ==> Measure(SweepFrom(s, i, axis, limit), axis, limit) < Measure(s, axis, limit)
    decreases |s| - i
  {
    if i < |s| {
      StepMeasure(s, i, axis, limit);
      SweepMeasure(Step(s, i, axis, limit), i + 1, axis, limit);
    }
  }

  /** `while True: ... if not changes_made: break` — sweep until a sweep
      changes nothing. */
  function Relaxed(s: seq<Region>, axis: Axis, limit: int): (t: seq<Region>)
    ensures |t| == |s|
    decreases Measure(s, axis, limit)
  {
    var t := Sweep(s, axis, limit);
    if t == s then s
    else
      SweepMeasure(s, 0, axis, limit);
      Relaxed(t, axis, limit)
  }

  /** The final box: x from the horizontal copy, y from the vertical copy;
      pictures keep the vertical copy (which equals the input). */
  function Merge(v: seq<Region>, h: seq<Region>): (m: seq<Region>)
    requires |v| == |h|
    ensures |m| == |v|
  {
    seq(|v|, k requires 0 <= k < |v| =>
      if Frozen(v[k]) then v[k]
      else Region(Box(h[k].box.x1, v[k].box.y1, h[k].box.x2, v[k].box.y2), v[k].kind, v[k].id, v[k].position))
  }

  /** `adjust_bounding_boxes_final(boxes, image_bbox)`. */
  function Adjusted(boxes: seq<Region>, page: Box): (m: seq<Region>)
    ensures |m| == |boxes|
  {
    Merge(Relaxed(boxes, Vertical, Limit(page, Vertical)), Relaxed(boxes, Horizontal, Limit(page, Horizontal)))
  }

  // ---------------------------------------------------------------------------
  // Growth: what a pass may do to each region

  /** `t` is `r` grown on `axis` only: same label, id and position, the other
      axis untouched, pictures unchanged, the low edge lowered only to values
      at or above 0 and the high edge raised only to values at or below the
      limit. */
  predicate GrownBox(r: Region, t: Region, axis: Axis, limit: int)
  {
    && t.kind == r.kind && t.id == r.id && t.position == r.position
    && (Frozen(r) ==> t == r)
    && Lo(t, Other(axis)) == Lo(r, Other(axis)) && Hi(t, Other(axis)) == Hi(r, Other(axis))
    && Lo(t, axis) <= Lo(r, axis) && Hi(r, axis) <= Hi(t, axis)
    && (Lo(t, axis) < Lo(r, axis) ==> 0 <= Lo(t, axis))
    && (Hi(t, axis) > Hi(r, axis) ==> Hi(t, axis) <= limit)
  }

  predicate Grown(s: seq<Region>, t: seq<Region>, axis: Axis, limit: int)
  {
    |t| == |s| && forall k :: 0 <= k < |s| ==> GrownBox(s[k], t[k], axis, limit)
  }

  lemma GrownTransitive(s: seq<Region>, t: seq<Region>, u: seq<Region>, axis: Axis, limit: int)
    requires Grown(s, t, axis, limit) && Grown(t, u, axis, limit)
    ensures Grown(s, u, axis, limit)
  {
    forall k | 0 <= k < |s|
      ensures GrownBox(s[k], u[k], axis, limit)
    {
      assert GrownBox(s[k], t[k], axis, limit) && GrownBox(t[k], u[k], axis, limit);
    }
  }

  lemma StepGrown(s: seq<Region>, i: nat, axis: Axis, limit: int)
    requires i < |s|
    ensures Grown(s, Step(s, i, axis, limit), axis, limit)
  {
    var t := Step(s, i, axis, limit);
    forall k | 0 <= k < |s|
      ensures GrownBox(s[k], t[k], axis, limit)
    {
      if k != i || Frozen(s[i]) || OverlapsOther(s, i) {
        assert t[k] == s[k];
      }
    }
  }

  lemma {:induction false} SweepGrown(s: seq<Region>, i: nat, axis: Axis, limit: int)
    requires i <= |s|
    ensures Grown(s, SweepFrom(s, i, axis, limit), axis, limit)
    decreases |s| - i
  {
    if i == |s| {
      assert forall k :: 0 <= k < |s| ==> GrownBox(s[k], s[k], axis, limit);
    } else {
      var t := Step(s, i, axis, limit);
      StepGrown(s, i, axis, limit);
      SweepGrown(t, i + 1, axis, limit);
      GrownTransitive(s, t, SweepFrom(t, i + 1, axis, limit), axis, limit);
    }
  }

  /** A whole pass (all sweeps until none changes) is a growth of its input. */
  lemma {:induction false} RelaxedGrown(s: seq<Region>, axis: Axis, limit: int)
    ensures Grown(s, Relaxed(s, axis, limit), axis, limit)
    decreases Measure(s, axis, limit)
  {
    var t := Sweep(s, axis, limit);
    if t == s {
      assert forall k :: 0 <= k < |s| ==> GrownBox(s[k], s[k], axis, limit);
    } else {
      SweepMeasure(s, 0, axis, limit);
      SweepGrown(s, 0, axis, limit);
      RelaxedGrown(t, axis, limit);
      GrownTransitive(s, t, Relaxed(t, axis, limit), axis, limit);
    }
  }

  // ---------------------------------------------------------------------------
  // The stop condition

  /** The situation the source's loop stops in: on this axis every region is
      frozen, touches another region, or already sits at both page limits. */
  predicate Stable(s: seq<Region>, axis: Axis, limit: int)
  {
    forall k :: 0 <= k < |s| ==> Frozen(s[k]) || OverlapsOther(s, k) || AtLimits(s[k], axis, limit)
  }

  /** A step on a region that cannot move leaves the copy as it is. */
  lemma StepStable(s: seq<Region>, i: nat, axis: Axis, limit: int)
    requires i < |s|
    ensures Step(s, i, axis, limit) == s <==> Frozen(s[i]) || OverlapsOther(s, i) || AtLimits(s[i], axis, limit)
  {
    if !(Frozen(s[i]) || OverlapsOther(s, i)) {
      var g := Grow(s[i], axis, limit);
      if AtLimits(s[i], axis, limit) {
        assert g == s[i];
        assert s[i := g] == s;
      } else {
        assert g != s[i];
        assert s[i := g][i] != s[i];
      }
    }
  }

  /** A sweep leaves regions before its start index alone. */
  lemma {:induction false} SweepFromKeepsPrefix(s: seq<Region>, i: nat, axis: Axis, limit: int, k: nat)
    requires k < i <= |s|
    ensures SweepFrom(s, i, axis, limit)[k] == s[k]
    decreases |s| - i
  {
    if i < |s| {
      SweepFromKeepsPrefix(Step(s, i, axis, limit), i + 1, axis, limit, k);
    }
  }

  /** A sweep that changes nothing found every region from `i` on stable, and
      conversely. */
  lemma {:induction false} SweepFromFixed(s: seq<Region>, i: nat, axis: Axis, limit: int)
    requires i <= |s|
    ensures SweepFrom(s, i, axis, limit) == s <==>
      forall k :: i <= k < |s| ==> Frozen(s[k]) || OverlapsOther(s, k) || AtLimits(s[k], axis, limit)
    decreases |s| - i
  {
    if i < |s| {
      var t := Step(s, i, axis, limit);
      StepStable(s, i, axis, limit);
      if t == s {
        SweepFromFixed(s, i + 1, axis, limit);
      } else {
        SweepFromKeepsPrefix(t, i + 1, axis, limit, i);
        assert SweepFrom(s, i, axis, limit)[i] == t[i] != s[i];
      }
    }
  }

  lemma SweepFixedIffStable(s: seq<Region>, axis: Axis, limit: int)
    ensures Sweep(s, axis, limit) == s <==> Stable(s, axis, limit)
  {
    SweepFromFixed(s, 0, axis, limit);
  }

  /** On return every region of a pass copy is frozen, touches another region
      of that copy, or sits at both page limits on that axis; and relaxing a
      stable copy changes nothing. */
  lemma {:induction false} RelaxedStable(s: seq<Region>, axis: Axis, limit: int)
    ensures Stable(Relaxed(s, axis, limit), axis, limit)
    ensures Stable(s, axis, limit) ==> Relaxed(s, axis, limit) == s
    decreases Measure(s, axis, limit)
  {
    var t := Sweep(s, axis, limit);
    SweepFixedIffStable(s, axis, limit);
    if t != s {
      SweepMeasure(s, 0, axis, limit);
      RelaxedStable(t, axis, limit);
    }
  }

  // ---------------------------------------------------------------------------
  // No interior overlap is created within a pass

  predicate AllWellFormed(s: seq<Region>)
  {
    forall k :: 0 <= k < |s| ==> WellFormed(s[k].box)
  }

  lemma GrownWellFormed(s: seq<Region>, t: seq<Region>, axis: Axis, limit: int)
    requires Grown(s, t, axis, limit) && AllWellFormed(s)
    ensures AllWellFormed(t)
  {
    forall k | 0 <= k < |t|
      ensures WellFormed(t[k].box)
    {
      assert GrownBox(s[k], t[k], axis, limit) && WellFormed(s[k].box);
    }
  }

  /** Every pair of regions whose interiors were apart in `s` is still apart in `t`. */
  predicate NoNewInteriorOverlap(s: seq<Region>, t: seq<Region>)
    requires |s| == |t|
  {
    forall i, j :: 0 <= i < |s| && 0 <= j < |s| && i != j && !InteriorsMeet(s[i].box, s[j].box) ==>
      !InteriorsMeet(t[i].box, t[j].box)
  }

  /** A region grows only when it touches no other region; with integer
      coordinates and one pixel per step, its grown interior then still misses
      every other region's interior. */
  lemma GrowKeepsApart(r: Region, o: Region, axis: Axis, limit: int)
    requires WellFormed(r.box) && WellFormed(o.box)
    requires !RectOverlap(r.box, o.box)
    ensures !InteriorsMeet(Grow(r, axis, limit).box, o.box)
    ensures !InteriorsMeet(o.box, Grow(r, axis, limit).box)
  {
  }

  lemma StepKeepsApart(s: seq<Region>, i: nat, axis: Axis, limit: int)
    requires i < |s| && AllWellFormed(s)
    ensures NoNewInteriorOverlap(s, Step(s, i, axis, limit))
  {
    if !(Frozen(s[i]) || OverlapsOther(s, i)) {
      forall j | 0 <= j < |s| && j != i
        ensures !InteriorsMeet(Grow(s[i], axis, limit).box, s[j].box)
        ensures !InteriorsMeet(s[j].box, Grow(s[i], axis, limit).box)
      {
        GrowKeepsApart(s[i], s[j], axis, limit);
      }
    }
  }

  lemma NoNewOverlapTransitive(s: seq<Region>, t: seq<Region>, u: seq<Region>)
    requires |s| == |t| == |u|
    requires NoNewInteriorOverlap(s, t) && NoNewInteriorOverlap(t, u)
    ensures NoNewInteriorOverlap(s, u)
  {
  }

  lemma {:induction false} SweepKeepsApart(s: seq<Region>, i: nat, axis: Axis, limit: int)
    requires i <= |s| && AllWellFormed(s)
    ensures NoNewInteriorOverlap(s, SweepFrom(s, i, axis, limit))
    decreases |s| - i
  {
    if i < |s| {
      var t := Step(s, i, axis, limit);
      StepKeepsApart(s, i, axis, limit);
      StepGrown(s, i, axis, limit);
      GrownWellFormed(s, t, axis, limit);
      SweepKeepsApart(t, i + 1, axis, limit);
      NoNewOverlapTransitive(s, t, SweepFrom(t, i + 1, axis, limit));
    }
  }

  /** Within one pass, growth never makes two regions' interiors meet. */
  lemma {:induction false} RelaxedKeepsApart(s: seq<Region>, axis: Axis, limit: int)
    requires AllWellFormed(s)
    ensures NoNewInteriorOverlap(s, Relaxed(s, axis, limit))
    decreases Measure(s, axis, limit)
  {
    var t := Sweep(s, axis, limit);
    if t != s {
      SweepMeasure(s, 0, axis, limit);
      SweepKeepsApart(s, 0, axis, limit);
      SweepGrown(s, 0, axis, limit);
      GrownWellFormed(s, t, axis, limit);
      RelaxedKeepsApart(t, axis, limit);
    }
  }

  // ---------------------------------------------------------------------------
  // The merged result

  /** `t` is `r` expanded within the page: same label, id and position,
      pictures unchanged, and on each axis the low edge lowered only to values
      at or above 0 and the high edge raised only to values at or below the
      page limit. */
  predicate ExpandedBox(r: Region, t: Region, page: Box)
  {
    && t.kind == r.kind && t.id == r.id && t.position == r.position
    && (Frozen(r) ==> t == r)
    && forall axis :: Lo(t, axis) <= Lo(r, axis) && Hi(r, axis) <= Hi(t, axis)
         && (Lo(t, axis) < Lo(r, axis) ==> 0 <= Lo(t, axis))
         && (Hi(t, axis) > Hi(r, axis) ==> Hi(t, axis) <= Limit(page, axis))
  }

  /** Each merged region combines the growth of the two passes. */
  lemma MergeExpandedBox(r: Region, v: Region, h: Region, page: Box)
    requires GrownBox(r, v, Vertical, Limit(page, Vertical))
    requires GrownBox(r, h, Horizontal, Limit(page, Horizontal))
    ensures ExpandedBox(r, Merge([v], [h])[0], page)
    ensures Contains(Merge([v], [h])[0].box, v.box) && Contains(Merge([v], [h])[0].box, h.box)
  {
  }

  /** `adjust_bounding_boxes_final` keeps length, order, labels, ids and
      positions, leaves pictures alone, and only moves edges outward toward
      the page limits: a region inside the page stays inside it. */
  lemma AdjustedExpanded(boxes: seq<Region>, page: Box)
    ensures forall k :: 0 <= k < |boxes| ==> ExpandedBox(boxes[k], Adjusted(boxes, page)[k], page)
    ensures forall k :: 0 <= k < |boxes| && Contains(Box(0, 0, page.x2, page.y2), boxes[k].box) ==>
      Contains(Box(0, 0, page.x2, page.y2), Adjusted(boxes, page)[k].box)
  {
    var v := Relaxed(boxes, Vertical, Limit(page, Vertical));
    var h := Relaxed(boxes, Horizontal, Limit(page, Horizontal));
    RelaxedGrown(boxes, Vertical, Limit(page, Vertical));
    RelaxedGrown(boxes, Horizontal, Limit(page, Horizontal));
    forall k | 0 <= k < |boxes|
      ensures ExpandedBox(boxes[k], Adjusted(boxes, page)[k], page)
    {
      MergeExpandedBox(boxes[k], v[k], h[k], page);
      assert Adjusted(boxes, page)[k] == Merge([v[k]], [h[k]])[0];
    }
    forall k | 0 <= k < |boxes| && Contains(Box(0, 0, page.x2, page.y2), boxes[k].box)
      ensures Contains(Box(0, 0, page.x2, page.y2), Adjusted(boxes, page)[k].box)
    {
      var t := Adjusted(boxes, page)[k];
      assert ExpandedBox(boxes[k], t, page);
      assert Lo(t, Vertical) <= Lo(boxes[k], Vertical) && Lo(t, Horizontal) <= Lo(boxes[k], Horizontal);
      assert Hi(t, Vertical) >= Hi(boxes[k], Vertical) && Hi(t, Horizontal) >= Hi(boxes[k], Horizontal);
    }
  }

  /** The merged copy holds both passes' boxes: it has the vertical pass's
      edges along y and the horizontal pass's edges along x. */
  lemma MergeEnlarges(boxes: seq<Region>, v: seq<Region>, h: seq<Region>, ly: int, lx: int)
    requires Grown(boxes, v, Vertical, ly) && Grown(boxes, h, Horizontal, lx)
    ensures var m := Merge(v, h);
      forall k :: 0 <= k < |m| ==>
        && Contains(m[k].box, v[k].box) && Contains(m[k].box, h[k].box)
        && Frozen(m[k]) == Frozen(v[k]) == Frozen(h[k])
        && Lo(m[k], Vertical) == Lo(v[k], Vertical) && Hi(m[k], Vertical) == Hi(v[k], Vertical)
        && Lo(m[k], Horizontal) == Lo(h[k], Horizontal) && Hi(m[k], Horizontal) == Hi(h[k], Horizontal)
  {
    var m := Merge(v, h);
    forall k | 0 <= k < |m|
      ensures Contains(m[k].box, v[k].box) && Contains(m[k].box, h[k].box)
      ensures Frozen(m[k]) == Frozen(v[k]) == Frozen(h[k])
      ensures Lo(m[k], Vertical) == Lo(v[k], Vertical) && Hi(m[k], Vertical) == Hi(v[k], Vertical)
      ensures Lo(m[k], Horizontal) == Lo(h[k], Horizontal) && Hi(m[k], Horizontal) == Hi(h[k], Horizontal)
    {
      assert GrownBox(boxes[k], v[k], Vertical, ly) && GrownBox(boxes[k], h[k], Horizontal, lx);
    }
  }

  /** Enlarging the boxes of a stable copy, keeping the edges along `axis`
      and which regions are frozen, leaves it stable: every overlap is kept. */
  lemma StableEnlarged(v: seq<Region>, m: seq<Region>, axis: Axis, limit: int)
    requires |m| == |v| && Stable(v, axis, limit) && AllWellFormed(v)
    requires forall k :: 0 <= k < |m| ==>
      Contains(m[k].box, v[k].box) && Frozen(m[k]) == Frozen(v[k])
      && Lo(m[k], axis) == Lo(v[k], axis) && Hi(m[k], axis) == Hi(v[k], axis)
    ensures Stable(m, axis, limit)
  {
    forall k | 0 <= k < |m|
      ensures Frozen(m[k]) || OverlapsOther(m, k) || AtLimits(m[k], axis, limit)
    {
      if !Frozen(m[k]) && !AtLimits(v[k], axis, limit) {
        var j :| 0 <= j < |v| && j != k && RectOverlap(v[k].box, v[j].box);
        OverlapGrows(v[k].box, v[j].box, m[k].box, m[j].box);
      }
    }
  }

  /** Running the adjustment again on its own output changes nothing: every
      region of the output is blocked or at the page limits on both axes,
      because enlarging the boxes of a stable copy keeps their overlaps. */
  lemma AdjustedIdempotent(boxes: seq<Region>, page: Box)
    requires AllWellFormed(boxes)
    ensures Adjusted(Adjusted(boxes, page), page) == Adjusted(boxes, page)
  {
    var ly, lx := Limit(page, Vertical), Limit(page, Horizontal);
    var v := Relaxed(boxes, Vertical, ly);
    var h := Relaxed(boxes, Horizontal, lx);
    var m := Merge(v, h);
    RelaxedGrown(boxes, Vertical, ly);
    RelaxedGrown(boxes, Horizontal, lx);
    RelaxedStable(boxes, Vertical, ly);
    RelaxedStable(boxes, Horizontal, lx);
    GrownWellFormed(boxes, v, Vertical, ly);
    GrownWellFormed(boxes, h, Horizontal, lx);
    MergeEnlarges(boxes, v, h, ly, lx);
    StableEnlarged(v, m, Vertical, ly);
    StableEnlarged(h, m, Horizontal, lx);
    RelaxedStable(m, Vertical, ly);
    RelaxedStable(m, Horizontal, lx);
    assert Merge(m, m) == m;
  }
}
