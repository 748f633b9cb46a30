/** Page regions at each stage of `get_layout`, and the list steps that come
    before reading order: extraction from the predictor's output, removal of
    generic text lines, id assignment and the degeneracy guard. */
module Regions {
  import opened Geometry

  /** `[x1, y1, x2, y2, label]`: one predictor box with the predictor's label. */
  datatype LabeledBox = LabeledBox(box: Box, kind: string)

  /** `[x1, y1, x2, y2, label, box_id]`. */
  datatype IdRegion = IdRegion(box: Box, kind: string, id: int)

  /** `[x1, y1, x2, y2, label, box_id, position]`: a region after reading order. */
  datatype Region = Region(box: Box, kind: string, id: int, position: int)

  /** One layout prediction: its `bboxes` in predictor order. */
  datatype LayoutResult = LayoutResult(bboxes: seq<LabeledBox>)

  /** The concatenation of every prediction's boxes, in order. */
  function Flatten(results: seq<LayoutResult>): seq<LabeledBox>
  {
    if results == [] then []
    else Flatten(results[..|results| - 1]) + results[|results| - 1].bboxes
  }

  /** Flattening distributes over concatenation of predictions, so boxes of
      earlier predictions come first and each keeps its order. */
  lemma {:induction false} FlattenAppend(a: seq<LayoutResult>, b: seq<LayoutResult>)
    ensures Flatten(a + b) == Flatten(a) + Flatten(b)
  {
    if b != [] {
      assert (a + b)[..|a + b| - 1] == a + b[..|b| - 1];
      FlattenAppend(a, b[..|b| - 1]);
    } else {
      assert a + b == a;
    }
  }

  /** A box is extracted exactly when some prediction holds it. */
  lemma {:induction false} FlattenMembers(results: seq<LayoutResult>, b: LabeledBox)
    ensures b in Flatten(results) <==> exists k :: 0 <= k < |results| && b in results[k].bboxes
  {
    if results != [] {
      FlattenMembers(results[..|results| - 1], b);
      var last := |results| - 1;
      if b in Flatten(results[..last]) {
        var k :| 0 <= k < last && b in results[..last][k].bboxes;
        assert b in results[k].bboxes;
      }
      if exists k :: 0 <= k < |results| && b in results[k].bboxes {
        var k :| 0 <= k < |results| && b in results[k].bboxes;
        if k < last {
          assert b in results[..last][k].bboxes;
        }
      }
    }
  }

  /** `extract_bounding_boxes`: append every prediction's boxes, in order. */
  method ExtractBoundingBoxes(predictions: seq<LayoutResult>) returns (boxes: seq<LabeledBox>)
    ensures boxes == Flatten(predictions)
  {
    boxes := [];
    var k := 0;
    while k < |predictions|
      invariant 0 <= k <= |predictions|
      invariant boxes == Flatten(predictions[..k])
    {
      var result := predictions[k];
      var n := 0;
      while n < |result.bboxes|
        invariant 0 <= n <= |result.bboxes|
        invariant boxes == Flatten(predictions[..k]) + result.bboxes[..n]
      {
        boxes := boxes + [result.bboxes[n]];
        n := n + 1;
      }
      assert result.bboxes[..n] == result.bboxes;
      assert predictions[..k + 1][..k] == predictions[..k];
      k := k + 1;
    }
    assert predictions[..k] == predictions;
  }

  /** `filter_text_labels`: drop the boxes labelled `"Text"`. */
  function FilterTextLabels(boxes: seq<LabeledBox>): (kept: seq<LabeledBox>)
    ensures forall b :: b in kept <==> b in boxes && b.kind != "Text"
    ensures |kept| <= |boxes|
  {
    if boxes == [] then []
    else (if boxes[0].kind != "Text" then [boxes[0]] else []) + FilterTextLabels(boxes[1..])
  }

  /** Filtering distributes over concatenation: the kept boxes stay in order. */
  lemma {:induction false} FilterTextLabelsAppend(a: seq<LabeledBox>, b: seq<LabeledBox>)
    ensures FilterTextLabels(a + b) == FilterTextLabels(a) + FilterTextLabels(b)
  {
    if a != [] {
      assert (a + b)[1..] == a[1..] + b;
      FilterTextLabelsAppend(a[1..], b);
    } else {
      assert a + b == b;
    }
  }

  /** Filtering twice is filtering once. */
  lemma {:induction false} FilterTextLabelsIdempotent(boxes: seq<LabeledBox>)
    ensures FilterTextLabels(FilterTextLabels(boxes)) == FilterTextLabels(boxes)
  {
    if boxes != [] {
      FilterTextLabelsIdempotent(boxes[1..]);
      var head := if boxes[0].kind != "Text" then [boxes[0]] else [];
      FilterTextLabelsAppend(head, FilterTextLabels(boxes[1..]));
    }
  }

  /** Exactly the `"Text"` boxes are removed: their number is the difference. */
  function CountText(boxes: seq<LabeledBox>): nat
  {
    if boxes == [] then 0 else (if boxes[0].kind == "Text" then 1 else 0) + CountText(boxes[1..])
  }

  lemma {:induction false} FilterTextLabelsCount(boxes: seq<LabeledBox>)
    ensures |FilterTextLabels(boxes)| + CountText(boxes) == |boxes|
  {
    if boxes != [] {
      FilterTextLabelsCount(boxes[1..]);
    }
  }

  /** `assign_boxIDs`: append each box's index as its id. */
  function AssignBoxIds(boxes: seq<LabeledBox>): (regions: seq<IdRegion>)
    ensures |regions| == |boxes|
    ensures forall i :: 0 <= i < |boxes| ==> regions[i].id == i
  {
    seq(|boxes|, i requires 0 <= i < |boxes| => IdRegion(boxes[i].box, boxes[i].kind, i))
  }

  function DropId(r: IdRegion): LabeledBox
  {
    LabeledBox(r.box, r.kind)
  }

  /** Ids are distinct, and removing them gives the input back. */
  lemma AssignBoxIdsRoundTrip(boxes: seq<LabeledBox>)
    ensures forall i, j :: 0 <= i < j < |boxes| ==> AssignBoxIds(boxes)[i].id != AssignBoxIds(boxes)[j].id
    ensures seq(|boxes|, i requires 0 <= i < |boxes| => DropId(AssignBoxIds(boxes)[i])) == boxes
  {
  }

  /** Smallest element of a non-empty sequence (Python's `min`). */
  function MinOf(s: seq<int>): (m: int)
    requires |s| > 0
    ensures m in s && forall i :: 0 <= i < |s| ==> m <= s[i]
  {
    if |s| == 1 then s[0]
    else var rest := MinOf(s[1..]); if s[0] <= rest then s[0] else rest
  }

  /** Largest element of a non-empty sequence (Python's `max`). */
  function MaxOf(s: seq<int>): (m: int)
    requires |s| > 0
    ensures m in s && forall i :: 0 <= i < |s| ==> s[i] <= m
  {
    if |s| == 1 then s[0]
    else var rest := MaxOf(s[1..]); if s[0] >= rest then s[0] else rest
  }

  /** Region count from which a page is treated as over-segmented. */
  const DegenerateCount: nat := 255

  function X1s(rs: seq<IdRegion>): seq<int> { seq(|rs|, i requires 0 <= i < |rs| => rs[i].box.x1) }
  function Y1s(rs: seq<IdRegion>): seq<int> { seq(|rs|, i requires 0 <= i < |rs| => rs[i].box.y1) }
  function X2s(rs: seq<IdRegion>): seq<int> { seq(|rs|, i requires 0 <= i < |rs| => rs[i].box.x2) }
  function Y2s(rs: seq<IdRegion>): seq<int> { seq(|rs|, i requires 0 <= i < |rs| => rs[i].box.y2) }

  /** The degeneracy guard of `get_layout`: 255 or more regions collapse into
      one `"Text"` region with id 0 spanning the extreme coordinates of all of
      them; fewer regions pass unchanged. */
  function DegeneracyGuard(regions: seq<IdRegion>): (r: seq<IdRegion>)
    ensures |regions| < DegenerateCount ==> r == regions
    ensures |regions| >= DegenerateCount ==>
      |r| == 1 && r[0].kind == "Text" && r[0].id == 0
      && (forall i :: 0 <= i < |regions| ==> Contains(r[0].box, regions[i].box))
      && (exists i :: 0 <= i < |regions| && r[0].box.x1 == regions[i].box.x1)
      && (exists i :: 0 <= i < |regions| && r[0].box.y1 == regions[i].box.y1)
      && (exists i :: 0 <= i < |regions| && r[0].box.x2 == regions[i].box.x2)
      && (exists i :: 0 <= i < |regions| && r[0].box.y2 == regions[i].box.y2)
  {
    if |regions| >= DegenerateCount then
      var b := Box(MinOf(X1s(regions)), MinOf(Y1s(regions)), MaxOf(X2s(regions)), MaxOf(Y2s(regions)));
      assert forall i :: 0 <= i < |regions| ==>
        (X1s(regions)[i] == regions[i].box.x1 && Y1s(regions)[i] == regions[i].box.y1
         && X2s(regions)[i] == regions[i].box.x2 && Y2s(regions)[i] == regions[i].box.y2);
      [IdRegion(b, "Text", 0)]
    else regions
  }
}
