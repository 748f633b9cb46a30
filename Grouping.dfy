/** The label-cell searches of the Excel labelling: `find_left_cells` and
    `find_top_cells` (the first cell of each row, or column, of a body) and
    `find_unique_leftmost_cells` and `find_unique_topmost_cells` (the cells
    alone in their column, or row, of a body, short of the last one). Each
    pair is one operation here, parameterised by the kind of line. */
module Grouping {
  import opened Sheet
  import opened Sorting

  /** Rows or columns. */
  datatype Line = ByRow | ByColumn

  /** The line a cell is on. */
  function Key(c: Coord, line: Line): int
  {
    if line == ByRow then c.row else c.col
  }

  /** The cell's position along its line. */
  function Along(c: Coord, line: Line): int
  {
    if line == ByRow then c.col else c.row
  }

  lemma KeyAlongDetermine(c: Coord, d: Coord, line: Line)
    requires Key(c, line) == Key(d, line) && Along(c, line) == Along(d, line)
    ensures c == d
  {
  }

  function KeyOf(line: Line): Coord -> int
  {
    c => Key(c, line)
  }

  /** `c` is the body's first cell on its line: for the rows, the cell of
      least column in its row. */
  ghost predicate IsEdgeCell(body: set<Coord>, c: Coord, line: Line)
  {
    c in body && forall d :: d in body && Key(d, line) == Key(c, line) ==> Along(c, line) <= Along(d, line)
  }

  /** The loop over one body's cells in `find_left_cells`: `firsts` maps each
      line the body touches to the first cell on it. The source iterates the
      set in its own order; any order gives this result. */
  method LineFirsts(body: set<Coord>, line: Line) returns (firsts: map<int, Coord>)
    ensures forall c :: c in firsts.Values <==> IsEdgeCell(body, c, line)
    ensures forall g :: g in firsts ==> Key(firsts[g], line) == g
  {
    var rest := body;
    firsts := map[];
    while rest != {}
      invariant rest <= body
      invariant forall g :: g in firsts ==> firsts[g] in body && firsts[g] !in rest && Key(firsts[g], line) == g
      invariant forall g, d :: g in firsts && d in body && d !in rest && Key(d, line) == g ==> Along(firsts[g], line) <= Along(d, line)
      invariant forall d :: d in body && d !in rest ==> Key(d, line) in firsts
      decreases |rest|
    {
      var c :| c in rest;
      var g := Key(c, line);
      if g !in firsts || Along(c, line) < Along(firsts[g], line) {
        firsts := firsts[g := c];
      }
      rest := rest - {c};
    }
    forall c | IsEdgeCell(body, c, line)
      ensures c in firsts.Values
    {
      var g := Key(c, line);
      KeyAlongDetermine(c, firsts[g], line);
    }
  }

  /** `find_left_cells` (`ByRow`) and `find_top_cells` (`ByColumn`): the
      first cell on every line of every body. */
  method FindEdgeCells(bodies: seq<set<Coord>>, line: Line) returns (edges: set<Coord>)
    ensures forall c :: c in edges <==> exists k :: 0 <= k < |bodies| && IsEdgeCell(bodies[k], c, line)
  {
    edges := {};
    for i := 0 to |bodies|
      invariant forall c :: c in edges <==> exists k :: 0 <= k < i && IsEdgeCell(bodies[k], c, line)
    {
      var firsts := LineFirsts(bodies[i], line);
      edges := edges + firsts.Values;
    }
  }

  /** The cells of `s` on line `k`, in order. */
  function OnLine(s: seq<Coord>, line: Line, k: int): (r: seq<Coord>)
    ensures |r| <= |s|
  {
    KeyClass(s, KeyOf(line), k)
  }

  /** Some cell of `s` lies on a later line than `k`. */
  predicate HasLaterLine(s: seq<Coord>, line: Line, k: int)
  {
    exists d :: d in s && Key(d, line) > k
  }

  /** The selection rule of `find_unique_leftmost_cells`: `c` is the only
      cell of `body` on its line, and the body reaches a later line. */
  predicate Qualifies(body: seq<Coord>, line: Line, c: Coord)
  {
    |OnLine(body, line, Key(c, line))| == 1 && HasLaterLine(body, line, Key(c, line))
  }

  /** The cells of `t` that qualify within `body`, in order. */
  function Picked(t: seq<Coord>, body: seq<Coord>, line: Line): (r: seq<Coord>)
    ensures |r| <= |t|
  {
    if t == [] then []
    else Picked(t[..|t| - 1], body, line) + (if Qualifies(body, line, t[|t| - 1]) then [t[|t| - 1]] else [])
  }

  /** The keys of a Python dict filled in the order of `s`: each line in the
      order its first cell appears. */
  function FirstKeys(s: seq<Coord>, line: Line): seq<int>
  {
    if s == [] then []
    else
      var keys := FirstKeys(s[..|s| - 1], line);
      keys + (if Key(s[|s| - 1], line) in keys then [] else [Key(s[|s| - 1], line)])
  }

  /** What the second loop of `find_unique_leftmost_cells` appends, over the
      dict's keys in order. */
  function Emitted(keys: seq<int>, body: seq<Coord>, line: Line): seq<Coord>
  {
    if keys == [] then []
    else
      var k := keys[|keys| - 1];
      var cells := OnLine(body, line, k);
      Emitted(keys[..|keys| - 1], body, line)
      + (if |cells| == 1 && HasLaterLine(body, line, k) then [cells[0]] else [])
  }

  lemma {:induction false} KeyClassHas(s: seq<Coord>, line: Line, d: Coord)
    requires d in s
    ensures d in OnLine(s, line, Key(d, line))
  {
    var init := s[..|s| - 1];
    if d != s[|s| - 1] {
      assert d in init;
      KeyClassHas(init, line, d);
    }
  }

  /** A line is among the dict's keys exactly when some cell is on it. */
  lemma {:induction false} FirstKeysMembers(s: seq<Coord>, line: Line, k: int)
    ensures k in FirstKeys(s, line) <==> OnLine(s, line, k) != []
  {
    if s != [] {
      FirstKeysMembers(s[..|s| - 1], line, k);
    }
  }

  /** The cells on the line of `body[n - 1]`: those before it, the cell
      itself, and those after. */
  lemma OnLineAround(body: seq<Coord>, line: Line, n: nat)
    requires 0 < n <= |body|
    ensures OnLine(body, line, Key(body[n - 1], line))
            == OnLine(body[..n - 1], line, Key(body[n - 1], line)) + [body[n - 1]]
               + OnLine(body[n..], line, Key(body[n - 1], line))
  {
    var prefix, x := body[..n - 1], body[n - 1];
    var k := Key(x, line);
    assert body == prefix + [x] + body[n..];
    KeyClassAppend(prefix + [x], body[n..], KeyOf(line), k);
    KeyClassAppend(prefix, [x], KeyOf(line), k);
    assert OnLine([x], line, k) == [x];
  }

  /** Emitting over the first appearances of the lines of a prefix of `body`
      picks the qualifying cells of that prefix. */
  lemma {:induction false} EmittedPicked(body: seq<Coord>, line: Line, n: nat)
    requires n <= |body|
    ensures Emitted(FirstKeys(body[..n], line), body, line) == Picked(body[..n], body, line)
  {
    if n > 0 {
      EmittedPicked(body, line, n - 1);
      var prefix, x := body[..n - 1], body[n - 1];
      var k := Key(x, line);
      assert body[..n][..n - 1] == prefix;
      var keys := FirstKeys(prefix, line);
      var cells := OnLine(body, line, k);
      assert FirstKeys(body[..n], line) == keys + (if k in keys then [] else [k]);
      assert Picked(body[..n], body, line) == Picked(prefix, body, line) + (if Qualifies(body, line, x) then [x] else []);
      FirstKeysMembers(prefix, line, k);
      OnLineAround(body, line, n);
      if k in keys {
        assert |cells| >= 2;
        assert !Qualifies(body, line, x);
        assert FirstKeys(body[..n], line) == keys;
      } else {
        var keys' := keys + [k];
        assert keys'[..|keys|] == keys;
        assert Emitted(keys', body, line)
          == Emitted(keys, body, line) + (if |cells| == 1 && HasLaterLine(body, line, k) then [cells[0]] else []);
        assert |cells| == 1 ==> cells[0] == x;
      }
    }
  }

  /** `groups` and `order` hold the dict built from the cells of `s`. */
  ghost predicate Grouped(s: seq<Coord>, line: Line, groups: map<int, seq<Coord>>, order: seq<int>)
  {
    && order == FirstKeys(s, line)
    && (forall k :: k in groups <==> k in order)
    && (forall k :: k in groups ==> groups[k] == OnLine(s, line, k))
  }

  /** Filing one more cell keeps the dict in step with the cells. */
  lemma GroupedSnoc(s: seq<Coord>, x: Coord, line: Line, groups: map<int, seq<Coord>>, order: seq<int>)
    requires Grouped(s, line, groups, order)
    ensures var k := Key(x, line);
            var groups' := if k in groups then groups else groups[k := []];
            var order' := if k in groups then order else order + [k];
            Grouped(s + [x], line, groups'[k := groups'[k] + [x]], order')
  {
    var k := Key(x, line);
    assert (s + [x])[..|s|] == s;
    FirstKeysMembers(s, line, k);
  }

  /** The first loop of `find_unique_leftmost_cells`: the cells grouped by
      line into a dict, whose keys keep their insertion order in `order`. */
  method GroupByLine(body: seq<Coord>, line: Line) returns (groups: map<int, seq<Coord>>, order: seq<int>)
    ensures order == FirstKeys(body, line)
    ensures forall k :: k in groups <==> k in order
    ensures forall k :: k in groups ==> groups[k] == OnLine(body, line, k)
  {
    groups := map[];
    order := [];
    for i := 0 to |body|
      invariant Grouped(body[..i], line, groups, order)
    {
      var cell := body[i];
      var k := Key(cell, line);
      assert body[..i + 1] == body[..i] + [cell];
      GroupedSnoc(body[..i], cell, line, groups, order);
      if k !in groups {
        groups := groups[k := []];
        order := order + [k];
      }
      groups := groups[k := groups[k] + [cell]];
    }
    assert body[..|body|] == body;
  }

  /** A later key among the dict's keys is a later line of the body. */
  lemma LaterKey(body: seq<Coord>, line: Line, k: int)
    ensures (exists other :: other in FirstKeys(body, line) && other > k) <==> HasLaterLine(body, line, k)
  {
    if d :| d in body && Key(d, line) > k {
      KeyClassHas(body, line, d);
      FirstKeysMembers(body, line, Key(d, line));
    }
    if other :| other in FirstKeys(body, line) && other > k {
      FirstKeysMembers(body, line, other);
      var d := OnLine(body, line, other)[0];
      KeyClassMembers(body, KeyOf(line), other, d);
    }
  }

  /** `find_unique_leftmost_cells` (`ByColumn`) and
      `find_unique_topmost_cells` (`ByRow`) over the body's cells in
      iteration order. The source computes the body's least column with
      `min`, which fails on an empty body; the value itself is unused. */
  method FindUniqueCells(body: seq<Coord>, line: Line) returns (result: seq<Coord>)
    requires |body| > 0
    ensures result == Picked(body, body, line)
  {
    var groups, order := GroupByLine(body, line);
    result := [];
    for t := 0 to |order|
      invariant result == Emitted(order[..t], body, line)
    {
      var k := order[t];
      var cells := groups[k];
      assert order[..t + 1][..t] == order[..t];
      LaterKey(body, line, k);
      if |cells| == 1 && (exists other :: other in groups && other > k) {
        result := result + [cells[0]];
      }
    }
    assert order[..|order|] == order;
    EmittedPicked(body, line, |body|);
    assert body[..|body|] == body;
  }
  /** The set-level reading of the unique-cell rule: `c` is the only cell
      of the body on its line, and the body reaches a later line. */
  ghost predicate IsUniqueCell(body: set<Coord>, c: Coord, line: Line)
  {
    && c in body
    && (forall d :: d in body && Key(d, line) == Key(c, line) ==> d == c)
    && (exists d :: d in body && Key(d, line) > Key(c, line))
  }

  /** The cells of a row-major listing on one line are still in row-major
      order. */
  lemma {:induction false} OnLineSorted(s: seq<Coord>, line: Line, k: int)
    requires RowMajorSorted(s)
    ensures RowMajorSorted(OnLine(s, line, k))
  {
    if s != [] {
      var init, x := s[..|s| - 1], s[|s| - 1];
      assert RowMajorSorted(init) by {
        forall i, j | 0 <= i < j < |init|
          ensures RowMajorBefore(init[i], init[j])
        {
          assert init[i] == s[i] && init[j] == s[j];
        }
      }
      OnLineSorted(init, line, k);
      var f := OnLine(init, line, k);
      forall i | 0 <= i < |f|
        ensures RowMajorBefore(f[i], x)
      {
        KeyClassMembers(init, KeyOf(line), k, f[i]);
        var m :| 0 <= m < |init| && init[m] == f[i];
        assert s[m] == f[i];
      }
    }
  }

  /** The cells `Picked` keeps are those of `t` that qualify. */
  lemma {:induction false} PickedMembers(t: seq<Coord>, body: seq<Coord>, line: Line)
    ensures forall c :: c in Picked(t, body, line) <==> c in t && Qualifies(body, line, c)
  {
    if t != [] {
      PickedMembers(t[..|t| - 1], body, line);
      assert t == t[..|t| - 1] + [t[|t| - 1]];
    }
  }

  /** Over a listing without repeats of the body's cells, the sequence rule
      `Qualifies` is exactly the set rule `IsUniqueCell`. */
  lemma QualifiesIff(listing: seq<Coord>, body: set<Coord>, line: Line, c: Coord)
    requires RowMajorSorted(listing)
    requires forall d :: d in listing <==> d in body
    requires c in body
    ensures Qualifies(listing, line, c) <==> IsUniqueCell(body, c, line)
  {
    var k := Key(c, line);
    var cls := OnLine(listing, line, k);
    KeyClassHas(listing, line, c);
    OnLineSorted(listing, line, k);
    if |cls| == 1 {
      forall d | d in body && Key(d, line) == k
        ensures d == c
      {
        KeyClassHas(listing, line, d);
      }
    }
    if IsUniqueCell(body, c, line) && |cls| >= 2 {
      KeyClassMembers(listing, KeyOf(line), k, cls[0]);
      KeyClassMembers(listing, KeyOf(line), k, cls[1]);
      SortedDistinct(cls, 0, 1);
    }
  }

  /** What `find_unique_leftmost_cells` and `find_unique_topmost_cells`
      return, read as sets: over a row-major listing of the body, the cells
      picked are exactly the body's unique cells. */
  lemma UniqueCellsMeaning(listing: seq<Coord>, body: set<Coord>, line: Line)
    requires RowMajorSorted(listing)
    requires forall d :: d in listing <==> d in body
    ensures forall c :: c in Picked(listing, listing, line) <==> IsUniqueCell(body, c, line)
  {
    PickedMembers(listing, listing, line);
    forall c | c in body
      ensures Qualifies(listing, line, c) <==> IsUniqueCell(body, c, line)
    {
      QualifiesIff(listing, body, line, c);
    }
  }
}
