/** The three-component records of the Excel conversion: for each non-empty
    cell, the labels read along its row (`x_labels`), the labels read along
    its column (`y_labels`) and its value (`get_cell_components` and
    `process_sheet`). */
module Labelling {
  import opened Wrappers
  import Geometry
  import opened Strings
  import opened Sorting
  import opened Sheet
  import opened Bodies
  import opened Grouping

  /** The dict `get_cell_components` returns. */
  datatype CellRecord = CellRecord(xLabels: string, yLabels: string, value: Value)

  function ValueAt(data: Grid, c: Coord): Value
    requires Rectangular(data) && InGrid(data, c)
  {
    data[c.row][c.col]
  }

  predicate AllInGrid(data: Grid, s: set<Coord>)
  {
    forall c :: c in s ==> InGrid(data, c)
  }

  /** The sort key of the unique cells: distance from `coord` along the
      line. */
  function GapKey(coord: Coord, line: Line): Coord -> int
  {
    c => Geometry.Abs(Along(c, line) - Along(coord, line))
  }

  /** The sort key of the regular label cells: how far before `coord`. */
  function NearKey(coord: Coord, line: Line): Coord -> int
  {
    c => Along(coord, line) - Along(c, line)
  }

  /** The labels shown for a list of cells, in its order. */
  function Labels(data: Grid, cells: seq<Coord>): (texts: seq<string>)
    requires Rectangular(data) && forall c :: c in cells ==> InGrid(data, c)
    ensures |texts| == |cells|
    ensures forall i :: 0 <= i < |cells| ==> texts[i] == FormatLabelValue(ValueAt(data, cells[i]))
  {
    if cells == [] then []
    else Labels(data, cells[..|cells| - 1]) + [FormatLabelValue(ValueAt(data, cells[|cells| - 1]))]
  }

  /** `" OR ".join(labels) if labels else "None"`. */
  function JoinOrNone(labels: seq<string>): string
  {
    if labels == [] then "None" else Join(" OR ", labels)
  }

  /** The unique cells of the body for `line` (`ByColumn`: the unique
      leftmost cells, `ByRow`: the unique topmost), nearest to `coord`
      along the line first (`sorted(..., key=abs(...))`). The body is
      iterated in row-major order. */
  function UniqueCells(data: Grid, coord: Coord, body: set<Coord>, line: Line): seq<Coord>
  {
    var listing := RowMajor(data, body);
    SortBy(Picked(listing, listing, line), GapKey(coord, line))
  }

  /** `c` lies before `coord` on the same line: for rows, in its row and
      to its left; for columns, in its column and above it. */
  predicate Precedes(c: Coord, coord: Coord, line: Line)
  {
    Key(c, line) == Key(coord, line) && Along(c, line) < Along(coord, line)
  }

  /** The regular label cells of `coord` among `edges` (`ByRow`: left cells
      earlier in its row, `ByColumn`: top cells higher in its column),
      nearest first. */
  function RegularCells(data: Grid, coord: Coord, edges: set<Coord>, line: Line): seq<Coord>
  {
    var before := set c | c in edges && Precedes(c, coord, line);
    SortBy(RowMajor(data, before), NearKey(coord, line))
  }

  /** The cells behind `x_labels`: unique leftmost cells, then left cells. */
  function XCells(data: Grid, coord: Coord, left: set<Coord>, body: set<Coord>): seq<Coord>
  {
    UniqueCells(data, coord, body, ByColumn) + RegularCells(data, coord, left, ByRow)
  }

  /** The cells behind `y_labels`: unique topmost cells, then top cells. */
  function YCells(data: Grid, coord: Coord, top: set<Coord>, body: set<Coord>): seq<Coord>
  {
    UniqueCells(data, coord, body, ByRow) + RegularCells(data, coord, top, ByColumn)
  }

  /** What a caller of `get_cell_components` supplies: a cell of a
      rectangular grid, label cells and a non-empty body inside the grid
      (the source's `min` fails on an empty body). */
  predicate ComponentsArgs(coord: Coord, data: Grid, left: set<Coord>, top: set<Coord>, body: set<Coord>)
  {
    Rectangular(data) && InGrid(data, coord)
    && AllInGrid(data, left) && AllInGrid(data, top) && AllInGrid(data, body) && body != {}
  }

  /** The unique cells are the body's cells alone on their line with a
      later line beside them, ordered by distance from `coord` along the
      line. */
  lemma UniqueCellsOrder(data: Grid, coord: Coord, body: set<Coord>, line: Line)
    requires AllInGrid(data, body)
    ensures var r := UniqueCells(data, coord, body, line);
            && (forall c :: c in r <==> IsUniqueCell(body, c, line))
            && (forall i, j :: 0 <= i < j < |r| ==>
                  Geometry.Abs(Along(r[i], line) - Along(coord, line)) <= Geometry.Abs(Along(r[j], line) - Along(coord, line)))
  {
    var listing := RowMajor(data, body);
    UniqueCellsMeaning(listing, body, line);
    SortBySorted(Picked(listing, listing, line), GapKey(coord, line));
    SortByMembers(Picked(listing, listing, line), GapKey(coord, line));
  }

  /** The regular label cells are exactly the edge cells before `coord` on
      its line, each nearer to `coord` than the next. */
  lemma RegularCellsOrder(data: Grid, coord: Coord, edges: set<Coord>, line: Line)
    requires AllInGrid(data, edges)
    ensures var r := RegularCells(data, coord, edges, line);
            && (forall c :: c in r <==> c in edges && Precedes(c, coord, line))
            && (forall i, j :: 0 <= i < j < |r| ==> Along(r[j], line) < Along(r[i], line))
  {
    var before := set c | c in edges && Precedes(c, coord, line);
    var listing := RowMajor(data, before);
    var key := NearKey(coord, line);
    var r := SortBy(listing, key);
    SortBySorted(listing, key);
    SortByMembers(listing, key);
    SortedOnce(listing);
    forall i, j | 0 <= i < j < |r|
      ensures Along(r[j], line) < Along(r[i], line)
    {
      NearestFirst(r, listing, coord, line, i, j);
    }
  }

  /** Two cells of one line before `coord`, sorted by distance and taken
      from a listing without repeats, are strictly ordered. */
  lemma NearestFirst(r: seq<Coord>, listing: seq<Coord>, coord: Coord, line: Line, i: int, j: int)
    requires multiset(r) == multiset(listing)
    requires forall x :: multiset(listing)[x] <= 1
    requires SortedBy(r, NearKey(coord, line))
    requires forall c :: c in r ==> Key(c, line) == Key(coord, line)
    requires 0 <= i < j < |r|
    ensures Along(r[j], line) < Along(r[i], line)
  {
    assert NearKey(coord, line)(r[i]) <= NearKey(coord, line)(r[j]);
    if Along(r[j], line) == Along(r[i], line) {
      KeyAlongDetermine(r[i], r[j], line);
      RepeatCounts(r, i, j);
      assert false;
    }
  }

  lemma CellsOfLabelsInGrid(coord: Coord, data: Grid, left: set<Coord>, top: set<Coord>, body: set<Coord>)
    requires ComponentsArgs(coord, data, left, top, body)
    ensures forall c :: c in XCells(data, coord, left, body) ==> InGrid(data, c)
    ensures forall c :: c in YCells(data, coord, top, body) ==> InGrid(data, c)
  {
    UniqueCellsOrder(data, coord, body, ByColumn);
    UniqueCellsOrder(data, coord, body, ByRow);
    RegularCellsOrder(data, coord, left, ByRow);
    RegularCellsOrder(data, coord, top, ByColumn);
  }

  /** `get_cell_components`: the record of `coord`, or `None` when it has no
      label at all. The source also accepts a cell whose only label cells
      are unique cells, which cannot happen without a label. */
  function CellComponents(coord: Coord, data: Grid, left: set<Coord>, top: set<Coord>, body: set<Coord>): (r: Option<CellRecord>)
    requires ComponentsArgs(coord, data, left, top, body)
    ensures r.None? <==> XCells(data, coord, left, body) == [] && YCells(data, coord, top, body) == []
    ensures r.Some? ==> r.value.value == ValueAt(data, coord)
    ensures r.Some? ==>
      (CellsOfLabelsInGrid(coord, data, left, top, body);
       r.value.xLabels == JoinOrNone(Labels(data, XCells(data, coord, left, body))) &&
       r.value.yLabels == JoinOrNone(Labels(data, YCells(data, coord, top, body))))
  {
    CellsOfLabelsInGrid(coord, data, left, top, body);
    var uniqueX := UniqueCells(data, coord, body, ByColumn);
    var uniqueY := UniqueCells(data, coord, body, ByRow);
    var xs := Labels(data, XCells(data, coord, left, body));
    var ys := Labels(data, YCells(data, coord, top, body));
    if xs != [] || ys != [] || uniqueX != [] || uniqueY != [] then
      Some(CellRecord(JoinOrNone(xs), JoinOrNone(ys), ValueAt(data, coord)))
    else
      None
  }

  lemma UniqueCellsEmpty(data: Grid, coord: Coord, body: set<Coord>, line: Line)
    requires AllInGrid(data, body)
    ensures UniqueCells(data, coord, body, line) == [] <==> forall c :: !IsUniqueCell(body, c, line)
  {
    UniqueCellsOrder(data, coord, body, line);
    var r := UniqueCells(data, coord, body, line);
    assert r != [] ==> r[0] in r;
  }

  lemma RegularCellsEmpty(data: Grid, coord: Coord, edges: set<Coord>, line: Line)
    requires AllInGrid(data, edges)
    ensures RegularCells(data, coord, edges, line) == [] <==>
              forall c :: c in edges ==> !Precedes(c, coord, line)
  {
    RegularCellsOrder(data, coord, edges, line);
    var r := RegularCells(data, coord, edges, line);
    assert r != [] ==> r[0] in r;
  }

  /** A cell gets no record exactly when its body has no unique cell on
      either kind of line, no left cell precedes it in its row and no top
      cell lies above it in its column. */
  lemma NoRecordIff(coord: Coord, data: Grid, left: set<Coord>, top: set<Coord>, body: set<Coord>)
    requires ComponentsArgs(coord, data, left, top, body)
    ensures CellComponents(coord, data, left, top, body).None? <==>
              && (forall c :: !IsUniqueCell(body, c, ByColumn))
              && (forall c :: !IsUniqueCell(body, c, ByRow))
              && (forall c :: c in left ==> !Precedes(c, coord, ByRow))
              && (forall c :: c in top ==> !Precedes(c, coord, ByColumn))
  {
    UniqueCellsEmpty(data, coord, body, ByColumn);
    UniqueCellsEmpty(data, coord, body, ByRow);
    RegularCellsEmpty(data, coord, left, ByRow);
    RegularCellsEmpty(data, coord, top, ByColumn);
    var ux, rl := UniqueCells(data, coord, body, ByColumn), RegularCells(data, coord, left, ByRow);
    var uy, rt := UniqueCells(data, coord, body, ByRow), RegularCells(data, coord, top, ByColumn);
    assert XCells(data, coord, left, body) == ux + rl;
    assert YCells(data, coord, top, body) == uy + rt;
    assert CellComponents(coord, data, left, top, body).None? <==> ux == [] && rl == [] && uy == [] && rt == [];
  }

  /** One unique-cell search of `get_cell_components` (`find_unique_leftmost_cells`
      for `ByColumn`, `find_unique_topmost_cells` for `ByRow`) and its
      ordering by distance from `coord`. */
  method SortedUniqueCells(coord: Coord, data: Grid, body: set<Coord>, line: Line) returns (unique: seq<Coord>, sorted: seq<Coord>)
    requires body != {}
    requires AllInGrid(data, body)
    ensures sorted == UniqueCells(data, coord, body, line)
    ensures |unique| == |sorted|
  {
    var listing := RowMajor(data, body);
    var some :| some in body;
    assert some in listing;
    unique := FindUniqueCells(listing, line);
    sorted := SortBy(unique, GapKey(coord, line));
  }

  /** `get_cell_components` with the two unique-cell searches run as the
      source runs them. */
  method GetCellComponents(coord: Coord, data: Grid, left: set<Coord>, top: set<Coord>, body: set<Coord>)
    returns (r: Option<CellRecord>)
    requires ComponentsArgs(coord, data, left, top, body)
    ensures r == CellComponents(coord, data, left, top, body)
  {
    var uniqueLeftmost, sortedX := SortedUniqueCells(coord, data, body, ByColumn);
    var uniqueTopmost, sortedY := SortedUniqueCells(coord, data, body, ByRow);
    var xCells := sortedX + RegularCells(data, coord, left, ByRow);
    var yCells := sortedY + RegularCells(data, coord, top, ByColumn);
    assert xCells == XCells(data, coord, left, body);
    assert yCells == YCells(data, coord, top, body);
    CellsOfLabelsInGrid(coord, data, left, top, body);
    var xs := Labels(data, xCells);
    var ys := Labels(data, yCells);
    if |xs| > 0 || |ys| > 0 || |uniqueLeftmost| > 0 || |uniqueTopmost| > 0 {
      r := Some(CellRecord(JoinOrNone(xs), JoinOrNone(ys), data[coord.row][coord.col]));
    } else {
      r := None;
    }
  }

  /** One body's pass of the `cell_to_body` loop: every cell of `body` now
      maps to it, every other entry is kept. */
  method FileBody(owner0: map<Coord, set<Coord>>, body: set<Coord>) returns (owner: map<Coord, set<Coord>>)
    ensures forall c :: c in owner <==> c in owner0 || c in body
    ensures forall c :: c in owner ==> owner[c] == if c in body then body else owner0[c]
  {
    owner := owner0;
    var rest := body;
    while rest != {}
      invariant rest <= body
      invariant forall c :: c in owner <==> c in owner0 || (c in body && c !in rest)
      invariant forall c :: c in owner ==> owner[c] == if c in body && c !in rest then body else owner0[c]
      decreases |rest|
    {
      var c :| c in rest;
      owner := owner[c := body];
      rest := rest - {c};
    }
  }

  /** The `cell_to_body` map of `process_sheet`: each cell of a body maps to
      the last body holding it. */
  method CellToBody(bodies: seq<set<Coord>>) returns (owner: map<Coord, set<Coord>>)
    ensures forall c :: c in owner <==> exists k :: 0 <= k < |bodies| && c in bodies[k]
    ensures forall k, c :: 0 <= k < |bodies| && c in bodies[k] && (forall j :: k < j < |bodies| ==> c !in bodies[j])
              ==> owner[c] == bodies[k]
  {
    owner := map[];
    for i := 0 to |bodies|
      invariant forall c :: c in owner <==> exists k :: 0 <= k < i && c in bodies[k]
      invariant forall k, c :: 0 <= k < i && c in bodies[k] && (forall j :: k < j < i ==> c !in bodies[j])
                  ==> owner[c] == bodies[k]
    {
      owner := FileBody(owner, bodies[i]);
    }
  }

  /** What `get_continuous_bodies` guarantees about its result. */
  ghost predicate IsBodiesOf(data: Grid, bodies: seq<set<Coord>>)
  {
    && (forall k, c :: 0 <= k < |bodies| && c in bodies[k] ==> bodies[k] == Component(data, c) && Occupied(data, c))
    && (forall j, k :: 0 <= j < k < |bodies| ==> bodies[j] * bodies[k] == {})
    && (forall c :: Occupied(data, c) ==> exists k :: 0 <= k < |bodies| && c in bodies[k])
  }

  /** The left cells (`ByRow`) or top cells (`ByColumn`) of the sheet: each
      cell first on its line within its own component. */
  ghost function EdgeCellsOf(data: Grid, line: Line): set<Coord>
  {
    set c | c in Cells(data) && IsEdgeCell(Component(data, c), c, line)
  }

  lemma CellsInGrid(data: Grid, c: Coord)
    ensures c in Cells(data) <==> InGrid(data, c)
  {
    if InGrid(data, c) {
      assert c == Coord(c.row, c.col);
    }
  }

  /** A cell in its own component is occupied. */
  lemma ComponentMemberOccupied(data: Grid, c: Coord)
    requires c in Component(data, c)
    ensures Occupied(data, c)
  {
    var p :| IsPath(data, p) && p[0] == c && p[|p| - 1] == c;
    assert Occupied(data, p[0]);
  }

  /** The cells `find_left_cells` and `find_top_cells` collect over the
      bodies of the sheet are its edge cells. */
  lemma EdgesOfBodies(data: Grid, bodies: seq<set<Coord>>, edges: set<Coord>, line: Line)
    requires IsBodiesOf(data, bodies)
    requires forall c :: c in edges <==> exists k :: 0 <= k < |bodies| && IsEdgeCell(bodies[k], c, line)
    ensures edges == EdgeCellsOf(data, line)
  {
    forall c
      ensures c in edges <==> c in EdgeCellsOf(data, line)
    {
      CellsInGrid(data, c);
      if c in edges {
        var k :| 0 <= k < |bodies| && IsEdgeCell(bodies[k], c, line);
        assert bodies[k] == Component(data, c);
      }
      if c in EdgeCellsOf(data, line) {
        ComponentMemberOccupied(data, c);
        var k :| 0 <= k < |bodies| && c in bodies[k];
        assert bodies[k] == Component(data, c);
      }
    }
  }

  /** Every occupied cell is filed under its own component. */
  lemma OwnersAreComponents(data: Grid, bodies: seq<set<Coord>>, owner: map<Coord, set<Coord>>)
    requires IsBodiesOf(data, bodies)
    requires forall c :: c in owner <==> exists k :: 0 <= k < |bodies| && c in bodies[k]
    requires forall k, c :: 0 <= k < |bodies| && c in bodies[k] && (forall j :: k < j < |bodies| ==> c !in bodies[j])
               ==> owner[c] == bodies[k]
    ensures forall c :: Occupied(data, c) ==> c in owner && owner[c] == Component(data, c)
  {
    forall c | Occupied(data, c)
      ensures c in owner && owner[c] == Component(data, c)
    {
      var k :| 0 <= k < |bodies| && c in bodies[k];
      forall j | k < j < |bodies|
        ensures c !in bodies[j]
      {
        NotInBoth(bodies[k], bodies[j], c);
      }
    }
  }

  /** The arguments `process_sheet` passes for an occupied cell. */
  lemma SheetArgs(data: Grid, c: Coord)
    requires Rectangular(data) && Occupied(data, c)
    ensures ComponentsArgs(c, data, EdgeCellsOf(data, ByRow), EdgeCellsOf(data, ByColumn), Component(data, c))
  {
    ComponentHoldsSelf(data, c);
    forall d | d in Cells(data)
      ensures InGrid(data, d)
    {
      CellsInGrid(data, d);
    }
  }

  /** The record of an occupied cell of the sheet. */
  ghost function RecordAt(data: Grid, c: Coord): Option<CellRecord>
    requires Rectangular(data) && Occupied(data, c)
  {
    SheetArgs(data, c);
    CellComponents(c, data, EdgeCellsOf(data, ByRow), EdgeCellsOf(data, ByColumn), Component(data, c))
  }

  /** The records of the labelled occupied cells among `cells`, in order. */
  ghost function RecordsOf(data: Grid, cells: seq<Coord>): seq<CellRecord>
    requires Rectangular(data)
  {
    if cells == [] then []
    else
      var c := cells[|cells| - 1];
      RecordsOf(data, cells[..|cells| - 1])
      + (if Occupied(data, c) && RecordAt(data, c).Some? then [RecordAt(data, c).value] else [])
  }

  /** The result of `process_sheet`: the cells visited row by row. */
  ghost function SheetRecords(data: Grid): seq<CellRecord>
    requires Rectangular(data)
  {
    RecordsOf(data, GridList(|data|, Width(data)))
  }

  /** The records of a list of cells are the records of its labelled
      occupied cells. */
  lemma {:induction false} RecordsOfMembers(data: Grid, cells: seq<Coord>)
    requires Rectangular(data)
    ensures forall rec :: rec in RecordsOf(data, cells) <==>
              exists c :: c in cells && Occupied(data, c) && RecordAt(data, c) == Some(rec)
  {
    if cells != [] {
      var init, last := cells[..|cells| - 1], cells[|cells| - 1];
      RecordsOfMembers(data, init);
      assert cells == init + [last];
    }
  }

  /** `process_sheet` yields a record for every labelled non-empty cell of
      the sheet and for nothing else, and each record carries the value of a
      non-empty cell. */
  lemma SheetRecordsMeaning(data: Grid)
    requires Rectangular(data)
    ensures forall rec :: rec in SheetRecords(data) <==>
              exists c :: Occupied(data, c) && RecordAt(data, c) == Some(rec)
    ensures forall rec :: rec in SheetRecords(data) ==> !IsCellEmpty(rec.value)
  {
    var w := Width(data);
    RecordsOfMembers(data, GridList(|data|, w));
    GridListMembers(|data|, w);
  }

  /** One more cell visited adds its record, if it has one. */
  lemma RecordsSnoc(data: Grid, cells: seq<Coord>, c: Coord)
    requires Rectangular(data)
    ensures RecordsOf(data, cells + [c]) == RecordsOf(data, cells)
              + (if Occupied(data, c) && RecordAt(data, c).Some? then [RecordAt(data, c).value] else [])
  {
    assert (cells + [c])[..|cells|] == cells;
  }

  /** The body of the cell loop of `process_sheet`: the record of one cell,
      if it is non-empty and labelled. */
  method VisitCell(coord: Coord, data: Grid, owner: map<Coord, set<Coord>>, left: set<Coord>, top: set<Coord>)
    returns (rec: Option<CellRecord>)
    requires Rectangular(data) && InGrid(data, coord)
    requires left == EdgeCellsOf(data, ByRow) && top == EdgeCellsOf(data, ByColumn)
    requires forall c :: Occupied(data, c) ==> c in owner && owner[c] == Component(data, c)
    ensures rec == if Occupied(data, coord) then RecordAt(data, coord) else None
  {
    rec := None;
    if !IsCellEmpty(data[coord.row][coord.col]) {
      SheetArgs(data, coord);
      if coord in owner {
        rec := GetCellComponents(coord, data, left, top, owner[coord]);
      }
    }
  }

  /** The set-up of `process_sheet`: the bodies, the `cell_to_body` map and
      the left and top cells. */
  method SheetTables(data: Grid) returns (owner: map<Coord, set<Coord>>, left: set<Coord>, top: set<Coord>)
    requires Rectangular(data)
    ensures left == EdgeCellsOf(data, ByRow) && top == EdgeCellsOf(data, ByColumn)
    ensures forall c :: Occupied(data, c) ==> c in owner && owner[c] == Component(data, c)
  {
    var bodies := ContinuousBodies(data);
    owner := CellToBody(bodies);
    left := FindEdgeCells(bodies, ByRow);
    top := FindEdgeCells(bodies, ByColumn);
    EdgesOfBodies(data, bodies, left, ByRow);
    EdgesOfBodies(data, bodies, top, ByColumn);
    OwnersAreComponents(data, bodies, owner);
  }

  /** One row of the cell loop of `process_sheet`. */
  method ProcessRow(data: Grid, r: nat, owner: map<Coord, set<Coord>>, left: set<Coord>, top: set<Coord>, records0: seq<CellRecord>)
    returns (records: seq<CellRecord>)
    requires Rectangular(data) && r < |data|
    requires left == EdgeCellsOf(data, ByRow) && top == EdgeCellsOf(data, ByColumn)
    requires forall c :: Occupied(data, c) ==> c in owner && owner[c] == Component(data, c)
    requires records0 == RecordsOf(data, GridList(r, Width(data)))
    ensures records == RecordsOf(data, GridList(r + 1, Width(data)))
  {
    var w := Width(data);
    records := records0;
    assert GridList(r, w) + RowCells(r, w)[..0] == GridList(r, w);
    for c := 0 to w
      invariant records == RecordsOf(data, GridList(r, w) + RowCells(r, w)[..c])
    {
      var coord := Coord(r, c);
      assert GridList(r, w) + RowCells(r, w)[..c + 1] == GridList(r, w) + RowCells(r, w)[..c] + [coord];
      RecordsSnoc(data, GridList(r, w) + RowCells(r, w)[..c], coord);
      var rec := VisitCell(coord, data, owner, left, top);
      if rec.Some? {
        records := records + [rec.value];
      }
    }
    assert RowCells(r, w)[..w] == RowCells(r, w);
  }

  /** `process_sheet`. */
  method ProcessSheet(data: Grid) returns (records: seq<CellRecord>)
    requires Rectangular(data)
    ensures records == SheetRecords(data)
  {
    var owner, left, top := SheetTables(data);
    records := [];
    for r := 0 to |data|
      invariant records == RecordsOf(data, GridList(r, Width(data)))
    {
      records := ProcessRow(data, r, owner, left, top, records);
    }
  }
}
