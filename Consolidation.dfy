/** `consolidate_regions`: sparse-line regions override the layout regions
    they dominate or enclose. */
module Consolidation {
  import opened Geometry
  import opened Labels
  import opened Regions

  /** The deletion rule for one (sparse, layout) pair.  Rule A: a structural
      sparse region that overlaps the layout region and is more than half as
      tall.  Rule B: an encapsulating sparse region that fully encloses it.
      (Coordinates are integers, so the source's `int()` leaves them as they are.) */
  predicate Supersedes(sparse: LabeledBox, layout: LabeledBox)
  {
    (IsStructural(sparse.kind) && RectOverlap(sparse.box, layout.box)
     && 2 * Abs(sparse.box.y1 - sparse.box.y2) > Abs(layout.box.y1 - layout.box.y2))
    || (IsEncapsulating(sparse.kind) && FullEncapsulation(sparse.box, layout.box))
  }

  /** Some sparse region deletes this layout region. */
  predicate Superseded(sparse: seq<LabeledBox>, layout: LabeledBox)
  {
    exists i :: 0 <= i < |sparse| && Supersedes(sparse[i], layout)
  }

  /** The layout regions no sparse region deletes, in their original order. */
  function Survivors(sparse: seq<LabeledBox>, layout: seq<LabeledBox>): (kept: seq<LabeledBox>)
    ensures forall b :: b in kept ==> b in layout && !Superseded(sparse, b)
    ensures forall j :: 0 <= j < |layout| && !Superseded(sparse, layout[j]) ==> layout[j] in kept
    ensures |kept| <= |layout|
  {
    if layout == [] then []
    else
      var last := layout[|layout| - 1];
      Survivors(sparse, layout[..|layout| - 1]) + (if Superseded(sparse, last) then [] else [last])
  }

  /** Survivors of a concatenation are the concatenated survivors. */
  lemma {:induction false} SurvivorsAppend(sparse: seq<LabeledBox>, a: seq<LabeledBox>, b: seq<LabeledBox>)
    ensures Survivors(sparse, a + b) == Survivors(sparse, a) + Survivors(sparse, b)
  {
    if b == [] {
      assert a + b == a;
    } else {
      assert (a + b)[..|a + b| - 1] == a + b[..|b| - 1];
      SurvivorsAppend(sparse, a, b[..|b| - 1]);
    }
  }

  /** The elements of `s` whose index is not in `marked`, in order (the
      comprehension `[box for i, box in enumerate(s) if i not in marked]`). */
  function Unmarked<T>(s: seq<T>, marked: set<int>): seq<T>
  {
    if s == [] then []
    else Unmarked(s[..|s| - 1], marked) + (if |s| - 1 in marked then [] else [s[|s| - 1]])
  }

  lemma {:induction false} UnmarkedNone<T>(s: seq<T>, marked: set<int>)
    requires forall j :: 0 <= j < |s| ==> j !in marked
    ensures Unmarked(s, marked) == s
  {
    if s != [] {
      UnmarkedNone(s[..|s| - 1], marked);
    }
  }

  lemma {:induction false} UnmarkedIsSurvivors(sparse: seq<LabeledBox>, layout: seq<LabeledBox>, marked: set<int>)
    requires forall j :: 0 <= j < |layout| ==> (j in marked <==> Superseded(sparse, layout[j]))
    ensures Unmarked(layout, marked) == Survivors(sparse, layout)
  {
    if layout != [] {
      UnmarkedIsSurvivors(sparse, layout[..|layout| - 1], marked);
    }
  }

  /** `consolidate_regions`: every sparse region, then the surviving layout
      regions, each list in its original order. */
  method ConsolidateRegions(sparse: seq<LabeledBox>, layout: seq<LabeledBox>)
    returns (consolidated: seq<LabeledBox>)
    ensures consolidated == sparse + Survivors(sparse, layout)
  {
    var toDeleteFromLayout: set<int> := {};
    var toDeleteFromSparse: set<int> := {};
    var i := 0;
    while i < |sparse|
      invariant 0 <= i <= |sparse|
      invariant forall j :: j in toDeleteFromLayout <==> 0 <= j < |layout| && Superseded(sparse[..i], layout[j])
    {
      var j := 0;
      while j < |layout|
        invariant 0 <= j <= |layout|
        invariant forall k :: k in toDeleteFromLayout <==>
          0 <= k < |layout| && (Superseded(sparse[..i], layout[k]) || (k < j && Supersedes(sparse[i], layout[k])))
      {
        if Supersedes(sparse[i], layout[j]) {
          toDeleteFromLayout := toDeleteFromLayout + {j};
        }
        j := j + 1;
      }
      forall k | 0 <= k < |layout|
        ensures Superseded(sparse[..i + 1], layout[k]) <==> Superseded(sparse[..i], layout[k]) || Supersedes(sparse[i], layout[k])
      {
        if Superseded(sparse[..i + 1], layout[k]) {
          var t :| 0 <= t < i + 1 && Supersedes(sparse[..i + 1][t], layout[k]);
          if t < i {
            assert sparse[..i][t] == sparse[t];
          }
        }
        if Superseded(sparse[..i], layout[k]) {
          var t :| 0 <= t < i && Supersedes(sparse[..i][t], layout[k]);
          assert sparse[..i + 1][t] == sparse[t];
        }
        if Supersedes(sparse[i], layout[k]) {
          assert sparse[..i + 1][i] == sparse[i];
        }
      }
      i := i + 1;
    }
    assert sparse[..i] == sparse;
    UnmarkedNone(sparse, toDeleteFromSparse);
    UnmarkedIsSurvivors(sparse, layout, toDeleteFromLayout);
    consolidated := Unmarked(sparse, toDeleteFromSparse) + Unmarked(layout, toDeleteFromLayout);
  }

  /** A text region overlapped by a taller Title sparse region is deleted; one
      that no sparse region touches survives. */
  lemma SurvivorsExample()
    ensures Survivors([LabeledBox(Box(0, 0, 100, 20), "Title")], [LabeledBox(Box(0, 0, 100, 15), "Text")]) == []
    ensures Survivors([LabeledBox(Box(0, 0, 100, 20), "Title")], [LabeledBox(Box(0, 30, 100, 45), "Text")])
      == [LabeledBox(Box(0, 30, 100, 45), "Text")]
  {
    var s := [LabeledBox(Box(0, 0, 100, 20), "Title")];
    assert Supersedes(s[0], LabeledBox(Box(0, 0, 100, 15), "Text"));
    assert !Supersedes(s[0], LabeledBox(Box(0, 30, 100, 45), "Text"));
  }
}
