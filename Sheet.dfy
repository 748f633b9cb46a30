/** The spreadsheet grid that the Excel labelling works on: cell values, cell
    coordinates, the emptiness test, how a value is shown as a label, and the
    graph whose vertices are the non-empty cells and whose edges join
    right/down/left/up neighbours. */
module Sheet {
  import opened Strings
  import opened Decimal

  /** A cell value as the workbook readers deliver it. */
  datatype Value =
    | NoValue               // Python's None
    | Str(s: string)
    | Int(i: int)
    | Bool(b: bool)
    | Float(text: string)   // a float, carried by the text `str()` gives it
    | Other(text: string)   // any other value (a date, say), by its `str()` text

  /** The sheet's rows; the width is read from the first row. */
  type Grid = seq<seq<Value>>

  predicate Rectangular(data: Grid)
  {
    forall r :: 0 <= r < |data| ==> |data[r]| == |data[0]|
  }

  function Width(data: Grid): nat
  {
    if |data| == 0 then 0 else |data[0]|
  }

  datatype Coord = Coord(row: int, col: int)

  /** `is_valid`: the coordinate lies inside the grid. */
  predicate InGrid(data: Grid, c: Coord)
  {
    0 <= c.row < |data| && 0 <= c.col < Width(data)
  }

  /** `is_cell_empty`: None, or a string that strips to nothing. */
  predicate IsCellEmpty(v: Value)
  {
    v.NoValue? || (v.Str? && Strip(v.s) == "")
  }

  /** A cell is empty exactly when it holds None or a string made only of
      whitespace. */
  lemma IsCellEmptyIff(v: Value)
    ensures IsCellEmpty(v) <==> v == NoValue || (v.Str? && AllWhitespace(v.s))
  {
    if v.Str? {
      StripEmptyIff(v.s);
    }
  }

  /** An in-grid cell whose value is not empty. */
  predicate Occupied(data: Grid, c: Coord)
  {
    InGrid(data, c) && c.col < |data[c.row]| && !IsCellEmpty(data[c.row][c.col])
  }

  /** Every coordinate of the grid. */
  function Cells(data: Grid): set<Coord>
  {
    set r, c | 0 <= r < |data| && 0 <= c < Width(data) :: Coord(r, c)
  }

  /** `int` and `float` (and `bool`, a subclass of `int`) print as
      themselves; anything else is shown between double quotes. */
  predicate IsNumber(v: Value)
  {
    v.Int? || v.Bool? || v.Float?
  }

  /** Python's `str(value)`. */
  function Shown(v: Value): string
  {
    match v
    case NoValue => "None"
    case Str(s) => s
    case Int(i) => IntToString(i)
    case Bool(b) => if b then "True" else "False"
    case Float(text) => text
    case Other(text) => text
  }

  /** `format_label_value`. */
  function FormatLabelValue(v: Value): (shown: string)
    ensures IsNumber(v) ==> shown == Shown(v)
    ensures !IsNumber(v) ==>
              |shown| == |Shown(v)| + 2 && shown[0] == '"' && shown[|shown| - 1] == '"'
              && shown[1..|shown| - 1] == Shown(v)
  {
    if IsNumber(v) then Shown(v) else "\"" + Shown(v) + "\""
  }

  /** An integer label is the integer's decimal text and never starts with a
      quote; a string label is quoted, so the two never coincide. */
  lemma IntLabelUnquoted(i: int, s: string)
    ensures FormatLabelValue(Int(i)) != FormatLabelValue(Str(s))
  {
    var unquoted := FormatLabelValue(Int(i));
    var quoted := FormatLabelValue(Str(s));
    assert quoted[0] == '"';
    if unquoted == quoted {
      assert unquoted[0] in IntToString(i);
      IntToStringChars(i, unquoted[0]);
      assert false;
    }
  }

  /** Right, down, left, up neighbours share a side. */
  predicate Adjacent(a: Coord, b: Coord)
  {
    (a.row == b.row && (a.col + 1 == b.col || b.col + 1 == a.col))
    || (a.col == b.col && (a.row + 1 == b.row || b.row + 1 == a.row))
  }

  /** The offsets `get_neighbors` tries: right, down, left, up. */
  const Directions: seq<(int, int)> := [(0, 1), (1, 0), (0, -1), (-1, 0)]

  /** The occupied cells among `c` moved by each offset of `dirs`, in order. */
  function NeighborsAlong(data: Grid, c: Coord, dirs: seq<(int, int)>): (ns: seq<Coord>)
    ensures forall n :: n in ns <==>
      Occupied(data, n) && exists k :: 0 <= k < |dirs| && n == Coord(c.row + dirs[k].0, c.col + dirs[k].1)
  {
    if dirs == [] then []
    else
      var n := Coord(c.row + dirs[0].0, c.col + dirs[0].1);
      var rest := NeighborsAlong(data, c, dirs[1..]);
      assert forall m :: m in rest ==> exists k :: 0 <= k < |dirs| && m == Coord(c.row + dirs[k].0, c.col + dirs[k].1) by {
        forall m | m in rest
          ensures exists k :: 0 <= k < |dirs| && m == Coord(c.row + dirs[k].0, c.col + dirs[k].1)
        {
          var k :| 0 <= k < |dirs| - 1 && m == Coord(c.row + dirs[1..][k].0, c.col + dirs[1..][k].1);
          assert dirs[1..][k] == dirs[k + 1];
        }
      }
      (if Occupied(data, n) then [n] else []) + rest
  }

  /** `get_neighbors`: the non-empty in-grid cells to the right, below, to the
      left and above, in that order. */
  function Neighbors(data: Grid, c: Coord): (ns: seq<Coord>)
    ensures forall n :: n in ns <==> Adjacent(c, n) && Occupied(data, n)
  {
    var ns := NeighborsAlong(data, c, Directions);
    assert forall n :: Adjacent(c, n) ==> exists k :: 0 <= k < 4 && n == Coord(c.row + Directions[k].0, c.col + Directions[k].1) by {
      forall n | Adjacent(c, n)
        ensures exists k :: 0 <= k < 4 && n == Coord(c.row + Directions[k].0, c.col + Directions[k].1)
      {
        if n.row == c.row && n.col == c.col + 1 {
          assert n == Coord(c.row + Directions[0].0, c.col + Directions[0].1);
        } else if n.col == c.col && n.row == c.row + 1 {
          assert n == Coord(c.row + Directions[1].0, c.col + Directions[1].1);
        } else if n.row == c.row {
          assert n == Coord(c.row + Directions[2].0, c.col + Directions[2].1);
        } else {
          assert n == Coord(c.row + Directions[3].0, c.col + Directions[3].1);
        }
      }
    }
    ns
  }

  /** A walk through non-empty cells, each step to a neighbour. */
  predicate IsPath(data: Grid, p: seq<Coord>)
  {
    |p| >= 1
    && (forall i :: 0 <= i < |p| ==> Occupied(data, p[i]))
    && (forall i :: 0 <= i < |p| - 1 ==> Adjacent(p[i], p[i + 1]))
  }

  ghost predicate Reachable(data: Grid, a: Coord, b: Coord)
  {
    exists p :: IsPath(data, p) && p[0] == a && p[|p| - 1] == b
  }

  /** The connected component of `a`: every cell a walk from `a` reaches. */
  ghost function Component(data: Grid, a: Coord): (comp: set<Coord>)
    ensures forall b :: b in comp ==> b in Cells(data)
  {
    set b | b in Cells(data) && Reachable(data, a, b)
  }

  /** Moving to an occupied neighbour keeps a cell reachable. */
  lemma ReachableStep(data: Grid, a: Coord, b: Coord, n: Coord)
    requires Reachable(data, a, b) && Adjacent(b, n) && Occupied(data, n)
    ensures Reachable(data, a, n)
  {
    var p :| IsPath(data, p) && p[0] == a && p[|p| - 1] == b;
    var q := p + [n];
    assert forall i :: 0 <= i < |q| - 1 ==> q[i] == p[i];
    assert IsPath(data, q);
  }

  lemma ReachableSelf(data: Grid, a: Coord)
    requires Occupied(data, a)
    ensures Reachable(data, a, a)
  {
    assert IsPath(data, [a]);
  }

  function Reverse(p: seq<Coord>): (r: seq<Coord>)
    ensures |r| == |p|
    ensures forall i :: 0 <= i < |p| ==> r[i] == p[|p| - 1 - i]
  {
    if p == [] then [] else Reverse(p[1..]) + [p[0]]
  }

  lemma ReachableSymmetric(data: Grid, a: Coord, b: Coord)
    requires Reachable(data, a, b)
    ensures Reachable(data, b, a)
  {
    var p :| IsPath(data, p) && p[0] == a && p[|p| - 1] == b;
    var q := Reverse(p);
    forall i | 0 <= i < |q| - 1
      ensures Adjacent(q[i], q[i + 1])
    {
      var j := |p| - 2 - i;
      assert q[i] == p[j + 1] && q[i + 1] == p[j];
      assert Adjacent(p[j], p[j + 1]);
    }
    forall i | 0 <= i < |q|
      ensures Occupied(data, q[i])
    {
      assert q[i] == p[|p| - 1 - i];
    }
    assert IsPath(data, q);
  }

  lemma ReachableTransitive(data: Grid, a: Coord, b: Coord, c: Coord)
    requires Reachable(data, a, b) && Reachable(data, b, c)
    ensures Reachable(data, a, c)
  {
    var p :| IsPath(data, p) && p[0] == a && p[|p| - 1] == b;
    var q :| IsPath(data, q) && q[0] == b && q[|q| - 1] == c;
    var w := p + q[1..];
    assert forall i :: 0 <= i < |w| ==> w[i] == (if i < |p| then p[i] else q[i - |p| + 1]);
    assert IsPath(data, w);
  }

  /** A set of cells that contains every occupied neighbour of its members. */
  ghost predicate NeighbourClosed(data: Grid, s: set<Coord>)
  {
    forall c, n :: c in s && Adjacent(c, n) && Occupied(data, n) ==> n in s
  }

  lemma {:induction false} PathStaysInside(data: Grid, s: set<Coord>, p: seq<Coord>, i: nat)
    requires NeighbourClosed(data, s) && IsPath(data, p) && p[0] in s && i < |p|
    ensures p[i] in s
  {
    if i > 0 {
      PathStaysInside(data, s, p, i - 1);
    }
  }

  /** A neighbour-closed set holding `a` holds all of `a`'s component. */
  lemma ClosedHoldsComponent(data: Grid, s: set<Coord>, a: Coord)
    requires NeighbourClosed(data, s) && a in s
    ensures Component(data, a) <= s
  {
    forall b | b in Component(data, a)
      ensures b in s
    {
      var p :| IsPath(data, p) && p[0] == a && p[|p| - 1] == b;
      PathStaysInside(data, s, p, |p| - 1);
    }
  }

  /** Components are neighbour-closed and made of occupied cells. */
  lemma ComponentClosed(data: Grid, a: Coord)
    ensures NeighbourClosed(data, Component(data, a))
    ensures forall b :: b in Component(data, a) ==> Occupied(data, b)
  {
    forall c, n | c in Component(data, a) && Adjacent(c, n) && Occupied(data, n)
      ensures n in Component(data, a)
    {
      ReachableStep(data, a, c, n);
    }
    forall b | b in Component(data, a)
      ensures Occupied(data, b)
    {
      var p :| IsPath(data, p) && p[0] == a && p[|p| - 1] == b;
      assert Occupied(data, p[|p| - 1]);
    }
  }

  /** Every member of a component has that same component. */
  lemma ComponentOfMember(data: Grid, a: Coord, b: Coord)
    requires b in Component(data, a)
    ensures Component(data, b) == Component(data, a)
  {
    ReachableSymmetric(data, a, b);
    forall c | c in Component(data, b)
      ensures c in Component(data, a)
    {
      ReachableTransitive(data, a, b, c);
    }
    forall c | c in Component(data, a)
      ensures c in Component(data, b)
    {
      ReachableTransitive(data, b, a, c);
    }
  }

  /** An occupied cell lies in its own component. */
  lemma ComponentHoldsSelf(data: Grid, a: Coord)
    requires Occupied(data, a)
    ensures a in Component(data, a)
  {
    ReachableSelf(data, a);
  }

  /** A cell's index in row-major order comes before another's. */
  predicate RowMajorBefore(a: Coord, b: Coord)
  {
    a.row < b.row || (a.row == b.row && a.col < b.col)
  }

  predicate RowMajorSorted(s: seq<Coord>)
  {
    forall i, j :: 0 <= i < j < |s| ==> RowMajorBefore(s[i], s[j])
  }

  function RowCells(r: int, w: nat): (cells: seq<Coord>)
    ensures |cells| == w
    ensures forall c :: 0 <= c < w ==> cells[c] == Coord(r, c)
  {
    seq(w, c => Coord(r, c))
  }

  /** The coordinates of an `h` by `w` grid in the order of the source's
      `for r in range(h): for c in range(w)` loops. */
  function GridList(h: nat, w: nat): (cells: seq<Coord>)
    ensures |cells| == h * w
  {
    if h == 0 then [] else GridList(h - 1, w) + RowCells(h - 1, w)
  }

  lemma {:induction false} GridListMembers(h: nat, w: nat)
    ensures forall c :: c in GridList(h, w) <==> 0 <= c.row < h && 0 <= c.col < w
    ensures RowMajorSorted(GridList(h, w))
  {
    if h > 0 {
      GridListMembers(h - 1, w);
      var a, b := GridList(h - 1, w), RowCells(h - 1, w);
      assert GridList(h, w) == a + b;
      forall c: Coord | 0 <= c.row < h && 0 <= c.col < w
        ensures c in a + b
      {
        if c.row == h - 1 {
          assert b[c.col] == c;
        } else {
          assert c in a;
        }
      }
      forall i, j | 0 <= i < j < |a + b|
        ensures RowMajorBefore((a + b)[i], (a + b)[j])
      {
        if j < |a| {
        } else if i >= |a| {
          assert (a + b)[i] == b[i - |a|] && (a + b)[j] == b[j - |a|];
        } else {
          assert (a + b)[i] == a[i] && a[i] in a;
          assert (a + b)[j] == b[j - |a|];
        }
      }
    }
  }

  /** The members of `s` in the order they appear in `xs`. */
  function FilterIn(xs: seq<Coord>, s: set<Coord>): (r: seq<Coord>)
    ensures |r| <= |xs|
    ensures forall c :: c in r <==> c in xs && c in s
  {
    if xs == [] then []
    else FilterIn(xs[..|xs| - 1], s) + (if xs[|xs| - 1] in s then [xs[|xs| - 1]] else [])
  }

  lemma {:induction false} FilterInSorted(xs: seq<Coord>, s: set<Coord>)
    requires RowMajorSorted(xs)
    ensures RowMajorSorted(FilterIn(xs, s))
  {
    if xs != [] {
      var init := xs[..|xs| - 1];
      assert RowMajorSorted(init);
      FilterInSorted(init, s);
      var f := FilterIn(init, s);
      var last := xs[|xs| - 1];
      forall i | 0 <= i < |f|
        ensures RowMajorBefore(f[i], last)
      {
        assert f[i] in init;
      }
    }
  }

  /** Iterating a set of cells: the model fixes the order to row-major. */
  function RowMajor(data: Grid, s: set<Coord>): (listing: seq<Coord>)
    ensures forall c :: c in listing <==> c in s && InGrid(data, c)
    ensures RowMajorSorted(listing)
  {
    GridListMembers(|data|, Width(data));
    FilterInSorted(GridList(|data|, Width(data)), s);
    FilterIn(GridList(|data|, Width(data)), s)
  }

  /** A row-major-sorted sequence has no repeated cell. */
  lemma SortedDistinct(s: seq<Coord>, i: int, j: int)
    requires RowMajorSorted(s) && 0 <= i < |s| && 0 <= j < |s| && i != j
    ensures s[i] != s[j]
  {
    if i < j {
      assert RowMajorBefore(s[i], s[j]);
    } else {
      assert RowMajorBefore(s[j], s[i]);
    }
  }

  /** A row-major-sorted sequence holds each cell at most once. */
  lemma {:induction false} SortedOnce(s: seq<Coord>)
    requires RowMajorSorted(s)
    ensures forall x :: multiset(s)[x] <= 1
  {
    if s != [] {
      var init, last := s[..|s| - 1], s[|s| - 1];
      assert s == init + [last];
      assert RowMajorSorted(init) by {
        forall i, j | 0 <= i < j < |init|
          ensures RowMajorBefore(init[i], init[j])
        {
          assert init[i] == s[i] && init[j] == s[j];
        }
      }
      SortedOnce(init);
      forall m | 0 <= m < |init|
        ensures init[m] != last
      {
        SortedDistinct(s, m, |s| - 1);
      }
    }
  }
}
