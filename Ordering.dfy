/** Order reconciliation: reading-order positions from the ordering predictor
    are attached to regions by exact rectangle match, then the regions are
    stably sorted by position. */
module Ordering {
  import opened Geometry
  import opened Regions
  import opened Sorting

  /** One box of the ordering predictor's output. */
  datatype OrderBox = OrderBox(box: Box, position: int)

  /** The dictionary from rectangle to region; a later region with the same
      rectangle replaces an earlier one. */
  function CoordMap(regions: seq<IdRegion>): (m: map<Box, IdRegion>)
    ensures forall b :: b in m ==> m[b].box == b
  {
    if regions == [] then map[]
    else
      var last := regions[|regions| - 1];
      CoordMap(regions[..|regions| - 1])[last.box := last]
  }

  /** The map holds exactly the input rectangles. */
  lemma {:induction false} CoordMapDomain(regions: seq<IdRegion>, b: Box)
    ensures b in CoordMap(regions) <==> exists i :: 0 <= i < |regions| && regions[i].box == b
  {
    if regions != [] {
      var init := regions[..|regions| - 1];
      CoordMapDomain(init, b);
      if exists i :: 0 <= i < |regions| && regions[i].box == b {
        var i :| 0 <= i < |regions| && regions[i].box == b;
        if i < |init| {
          assert init[i].box == b;
        }
      }
    }
  }

  /** Each rectangle is bound to the last region that has it. */
  lemma {:induction false} CoordMapValue(regions: seq<IdRegion>, b: Box)
    requires b in CoordMap(regions)
    ensures exists i ::
              0 <= i < |regions| && regions[i] == CoordMap(regions)[b]
              && forall j :: i < j < |regions| ==> regions[j].box != b
  {
    var init, last := regions[..|regions| - 1], regions[|regions| - 1];
    if b == last.box {
      assert regions[|regions| - 1] == CoordMap(regions)[b];
    } else {
      CoordMapValue(init, b);
      var i :| 0 <= i < |init| && init[i] == CoordMap(init)[b]
        && forall j :: i < j < |init| ==> init[j].box != b;
      assert regions[i] == CoordMap(regions)[b];
    }
  }

  function Stamp(r: IdRegion, position: int): Region
  {
    Region(r.box, r.kind, r.id, position)
  }

  function DropPosition(r: Region): IdRegion
  {
    IdRegion(r.box, r.kind, r.id)
  }

  function PositionOf(r: Region): int
  {
    r.position
  }

  /** The predictor boxes that match a region, in predictor order, each as that
      region with the box's position appended; unmatched boxes give nothing. */
  function Stamped(m: map<Box, IdRegion>, predicted: seq<OrderBox>): (s: seq<Region>)
    ensures |s| <= |predicted|
  {
    if predicted == [] then []
    else
      var last := predicted[|predicted| - 1];
      Stamped(m, predicted[..|predicted| - 1])
        + (if last.box in m then [Stamp(m[last.box], last.position)] else [])
  }

  lemma {:induction false} StampedMembers(m: map<Box, IdRegion>, predicted: seq<OrderBox>, r: Region)
    ensures r in Stamped(m, predicted) <==>
      exists j :: 0 <= j < |predicted| && predicted[j].box in m && r == Stamp(m[predicted[j].box], predicted[j].position)
  {
    if predicted != [] {
      var init := predicted[..|predicted| - 1];
      StampedMembers(m, init, r);
      if exists j :: 0 <= j < |predicted| && predicted[j].box in m && r == Stamp(m[predicted[j].box], predicted[j].position) {
        var j :| 0 <= j < |predicted| && predicted[j].box in m && r == Stamp(m[predicted[j].box], predicted[j].position);
        if j < |init| {
          assert init[j] == predicted[j];
        }
      }
    }
  }

  /** The reconciled list: the matched predictor boxes stamped and then sorted
      stably by position. */
  function Reconciled(regions: seq<IdRegion>, predicted: seq<OrderBox>): seq<Region>
  {
    SortBy(Stamped(CoordMap(regions), predicted), PositionOf)
  }

  /** The loop over the predictor boxes, then the in-place sort by position. */
  method ReconcileOrder(regions: seq<IdRegion>, predicted: seq<OrderBox>) returns (ordered: seq<Region>)
    ensures ordered == Reconciled(regions, predicted)
  {
    var coordToBox := CoordMap(regions);
    var stamped: seq<Region> := [];
    var j := 0;
    while j < |predicted|
      invariant 0 <= j <= |predicted|
      invariant stamped == Stamped(coordToBox, predicted[..j])
    {
      var orderBox := predicted[j];
      if orderBox.box in coordToBox {
        stamped := stamped + [Stamp(coordToBox[orderBox.box], orderBox.position)];
      }
      assert predicted[..j + 1][..j] == predicted[..j];
      j := j + 1;
    }
    assert predicted[..j] == predicted;
    var a := new Region[|stamped|](i requires 0 <= i < |stamped| => stamped[i]);
    assert a[..] == stamped;
    InsertionSort(a, PositionOf);
    ordered := a[..];
  }

  /** The reconciled list is ordered by position, and regions sharing a
      position keep their predictor order. */
  lemma ReconciledSortedStable(regions: seq<IdRegion>, predicted: seq<OrderBox>, p: int)
    ensures SortedBy(Reconciled(regions, predicted), PositionOf)
    ensures KeyClass(Reconciled(regions, predicted), PositionOf, p)
         == KeyClass(Stamped(CoordMap(regions), predicted), PositionOf, p)
  {
    SortBySorted(Stamped(CoordMap(regions), predicted), PositionOf);
    SortByStable(Stamped(CoordMap(regions), predicted), PositionOf, p);
  }

  /** Every reconciled entry is an input region whose rectangle is exactly a
      predictor box's, carrying that box's position; and every predictor box
      whose rectangle is in the map (that is, CoordMapDomain, matches some
      region) contributes one. */
  lemma ReconciledEntries(regions: seq<IdRegion>, predicted: seq<OrderBox>, r: Region)
    ensures r in Reconciled(regions, predicted) ==>
      (exists i :: 0 <= i < |regions| && regions[i] == DropPosition(r))
      && (exists j :: 0 <= j < |predicted| && predicted[j] == OrderBox(r.box, r.position))
    ensures forall j :: 0 <= j < |predicted| && predicted[j].box in CoordMap(regions) ==>
      Stamp(CoordMap(regions)[predicted[j].box], predicted[j].position) in Reconciled(regions, predicted)
    ensures |Reconciled(regions, predicted)| <= |predicted|
  {
    var m := CoordMap(regions);
    var s := Stamped(m, predicted);
    SortBySorted(s, PositionOf);
    assert multiset(Reconciled(regions, predicted)) == multiset(s);
    if r in Reconciled(regions, predicted) {
      assert r in multiset(s);
      StampedMembers(m, predicted, r);
      var j :| 0 <= j < |predicted| && predicted[j].box in m && r == Stamp(m[predicted[j].box], predicted[j].position);
      CoordMapValue(regions, predicted[j].box);
    }
    forall j | 0 <= j < |predicted| && predicted[j].box in m
      ensures Stamp(m[predicted[j].box], predicted[j].position) in Reconciled(regions, predicted)
    {
      StampedMembers(m, predicted, Stamp(m[predicted[j].box], predicted[j].position));
      assert Stamp(m[predicted[j].box], predicted[j].position) in multiset(s);
    }
  }
}
