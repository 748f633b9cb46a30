/** Table decomposition: every Table region is handed to the table
    recognizer with the sparse text lines it encloses (in table-local
    coordinates); the cells it returns are moved back to page coordinates
    and replace the table.  If the recognizer fails, the Table regions are
    kept whole. */
module Tables {
  import opened Wrappers
  import opened Geometry
  import opened Regions
  import opened Decimal
  import opened Strings

  /** One cell of the recognizer's answer for a table, in table-local coordinates. */
  datatype TableCell = TableCell(box: Box, row: int, col: int)

  datatype TableResult = TableResult(cells: seq<TableCell>)

  /** What is handed to the recognizer for one table (the table's position
      and rectangle, kept in `table_positions`, and its candidate cells). */
  datatype TableRequest = TableRequest(position: int, table: Box, cells: seq<Box>)

  /** An entry of `final_regions`: a whole region, or a table cell
      `[x1, y1, x2, y2, 'a', filename, row, col]`. */
  datatype FinalRegion = Whole(region: Region) | Cell(box: Box, filename: string, row: int, col: int)

  predicate IsTable(r: Region)
  {
    r.kind == "Table"
  }

  /** The sparse line boxes the table fully encapsulates, shifted so that the
      table's corner `(x1, y1)` becomes the origin. */
  function CandidateCells(table: Box, lines: seq<Box>): (cells: seq<Box>)
    ensures |cells| <= |lines|
  {
    if lines == [] then []
    else
      var last := lines[|lines| - 1];
      CandidateCells(table, lines[..|lines| - 1])
        + (if FullEncapsulation(table, last) then [Translate(last, -table.x1, -table.y1)] else [])
  }

  /** `c` is the candidate cell of page line `line`. */
  predicate CandidateOf(table: Box, line: Box, c: Box)
  {
    FullEncapsulation(table, line) && c == Translate(line, -table.x1, -table.y1)
  }

  /** The candidates are exactly the shifted enclosed lines. */
  lemma {:induction false} CandidateCellsMembers(table: Box, lines: seq<Box>, c: Box)
    ensures c in CandidateCells(table, lines) <==> exists i :: 0 <= i < |lines| && CandidateOf(table, lines[i], c)
  {
    if lines != [] {
      var init := lines[..|lines| - 1];
      CandidateCellsMembers(table, init, c);
      if exists i :: 0 <= i < |lines| && CandidateOf(table, lines[i], c) {
        var i :| 0 <= i < |lines| && CandidateOf(table, lines[i], c);
        if i < |init| {
          assert init[i] == lines[i];
        }
      }
      if exists i :: 0 <= i < |init| && CandidateOf(table, init[i], c) {
        var i :| 0 <= i < |init| && CandidateOf(table, init[i], c);
        assert lines[i] == init[i];
      }
    }
  }

  /** Each candidate lies inside the table-local rectangle
      `[0, width] x [0, height]` and is carried back onto its page line by
      the opposite shift. */
  lemma CandidateCellsPlaced(table: Box, lines: seq<Box>, c: Box)
    requires c in CandidateCells(table, lines)
    ensures Translate(c, table.x1, table.y1) in lines
    ensures FullEncapsulation(Box(0, 0, table.x2 - table.x1, table.y2 - table.y1), c)
  {
    CandidateCellsMembers(table, lines, c);
    var i :| 0 <= i < |lines| && CandidateOf(table, lines[i], c);
    TranslateRoundTrip(lines[i], table.x1, table.y1);
  }

  /** What is sent for one Table region: its position, its rectangle and
      the candidate cells among the sparse lines. */
  function RequestFor(r: Region, lines: seq<Box>): TableRequest
  {
    TableRequest(r.position, r.box, CandidateCells(r.box, lines))
  }

  /** One request per Table region, in region order: the t-th request is
      made from the t-th Table region. */
  function TableRequests(regions: seq<Region>, lines: seq<Box>): (reqs: seq<TableRequest>)
    ensures |reqs| <= |regions|
    ensures |reqs| == |TableRegions(regions)|
    ensures forall t :: 0 <= t < |reqs| ==> reqs[t] == RequestFor(TableRegions(regions)[t].region, lines)
  {
    if regions == [] then []
    else
      var last := regions[|regions| - 1];
      TableRequests(regions[..|regions| - 1], lines)
        + (if IsTable(last) then [RequestFor(last, lines)] else [])
  }

  /** The non-table regions, whole and in order. */
  function NonTableRegions(regions: seq<Region>): (kept: seq<FinalRegion>)
    ensures forall e :: e in kept ==> e.Whole? && e.region in regions && !IsTable(e.region)
    ensures forall r :: r in regions && !IsTable(r) ==> Whole(r) in kept
  {
    if regions == [] then []
    else
      var last := regions[|regions| - 1];
      NonTableRegions(regions[..|regions| - 1]) + (if IsTable(last) then [] else [Whole(last)])
  }

  /** The Table regions, whole and in order (the fallback). */
  function TableRegions(regions: seq<Region>): (tables: seq<FinalRegion>)
    ensures forall e :: e in tables ==> e.Whole? && e.region in regions && IsTable(e.region)
    ensures forall r :: r in regions && IsTable(r) ==> Whole(r) in tables
  {
    if regions == [] then []
    else
      var last := regions[|regions| - 1];
      TableRegions(regions[..|regions| - 1]) + (if IsTable(last) then [Whole(last)] else [])
  }

  /** Filtering and request building distribute over concatenation of the
      region list, so each keeps the regions' order. */
  lemma {:induction false} NonTableRegionsAppend(a: seq<Region>, b: seq<Region>)
    ensures NonTableRegions(a + b) == NonTableRegions(a) + NonTableRegions(b)
  {
    if b == [] {
      assert a + b == a;
    } else {
      var n := |b| - 1;
      assert (a + b)[..|a + b| - 1] == a + b[..n];
      assert (a + b)[|a + b| - 1] == b[n];
      NonTableRegionsAppend(a, b[..n]);
    }
  }

  lemma {:induction false} TableRegionsAppend(a: seq<Region>, b: seq<Region>)
    ensures TableRegions(a + b) == TableRegions(a) + TableRegions(b)
  {
    if b == [] {
      assert a + b == a;
    } else {
      var n := |b| - 1;
      assert (a + b)[..|a + b| - 1] == a + b[..n];
      assert (a + b)[|a + b| - 1] == b[n];
      TableRegionsAppend(a, b[..n]);
    }
  }

  lemma {:induction false} TableRequestsAppend(a: seq<Region>, b: seq<Region>, lines: seq<Box>)
    ensures TableRequests(a + b, lines) == TableRequests(a, lines) + TableRequests(b, lines)
  {
    if b == [] {
      assert a + b == a;
    } else {
      var n := |b| - 1;
      assert (a + b)[..|a + b| - 1] == a + b[..n];
      assert (a + b)[|a + b| - 1] == b[n];
      TableRequestsAppend(a, b[..n], lines);
    }
  }

  /** `f"{page_number}_{position}_a_{row_id}_{col_id}.png"`. */
  function CellFileName(page: int, position: int, row: int, col: int): string
  {
    IntToString(page) + "_" + IntToString(position) + "_a_" + IntToString(row) + "_" + IntToString(col) + ".png"
  }

  lemma NoUnderscore(i: int)
    ensures '_' !in IntToString(i)
  {
    if '_' in IntToString(i) {
      IntToStringChars(i, '_');
    }
  }

  lemma JoinFive(parts: seq<string>)
    requires |parts| == 5
    ensures Join("_", parts) == parts[0] + "_" + parts[1] + "_" + parts[2] + "_" + parts[3] + "_" + parts[4]
  {
    assert Join("_", parts[4..]) == parts[4];
    assert Join("_", parts[3..]) == parts[3] + "_" + Join("_", parts[3..][1..]);
    assert parts[3..][1..] == parts[4..];
    assert Join("_", parts[2..]) == parts[2] + "_" + Join("_", parts[2..][1..]);
    assert parts[2..][1..] == parts[3..];
    assert Join("_", parts[1..]) == parts[1] + "_" + Join("_", parts[1..][1..]);
    assert parts[1..][1..] == parts[2..];
  }

  /** The name splits at `_` into its five fields. */
  lemma CellFileNameSplit(p: int, a: int, r: int, c: int)
    ensures Split(CellFileName(p, a, r, c), '_') == [IntToString(p), IntToString(a), "a", IntToString(r), IntToString(c) + ".png"]
  {
    var parts := [IntToString(p), IntToString(a), "a", IntToString(r), IntToString(c) + ".png"];
    NoUnderscore(p); NoUnderscore(a); NoUnderscore(r); NoUnderscore(c);
    JoinFive(parts);
    assert CellFileName(p, a, r, c) == parts[0] + "_" + parts[1] + "_" + parts[2] + "_" + parts[3] + "_" + parts[4];
    SplitJoin(parts, '_');
  }

  /** The cell file name determines the page, table position, row and
      column it was made from, so two cells never share a file name. */
  lemma CellFileNameInjective(p: int, a: int, r: int, c: int, p': int, a': int, r': int, c': int)
    requires CellFileName(p, a, r, c) == CellFileName(p', a', r', c')
    ensures p == p' && a == a' && r == r' && c == c'
  {
    CellFileNameSplit(p, a, r, c);
    CellFileNameSplit(p', a', r', c');
    var last, last' := IntToString(c) + ".png", IntToString(c') + ".png";
    assert last == last';
    assert IntToString(c) == last[..|last| - 4];
    assert IntToString(c') == last'[..|last'| - 4];
    IntToStringInjective(p, p');
    IntToStringInjective(a, a');
    IntToStringInjective(r, r');
    IntToStringInjective(c, c');
  }

  /** A returned cell, moved back onto the page by the table's corner. */
  function CellRegion(page: int, req: TableRequest, cell: TableCell): FinalRegion
  {
    Cell(Translate(cell.box, req.table.x1, req.table.y1), CellFileName(page, req.position, cell.row, cell.col), cell.row, cell.col)
  }

  function TableCellRegions(page: int, result: TableResult, req: TableRequest): (cells: seq<FinalRegion>)
    ensures |cells| == |result.cells|
  {
    seq(|result.cells|, k requires 0 <= k < |result.cells| => CellRegion(page, req, result.cells[k]))
  }

  /** The cells of `zip(table_results, table_positions)`, equal lengths. */
  function ZipCells(page: int, results: seq<TableResult>, reqs: seq<TableRequest>): seq<FinalRegion>
    requires |results| == |reqs|
  {
    if results == [] then []
    else
      ZipCells(page, results[..|results| - 1], reqs[..|reqs| - 1])
        + TableCellRegions(page, results[|results| - 1], reqs[|reqs| - 1])
  }

  function Shorter(m: nat, n: nat): (r: nat)
    ensures r <= m && r <= n && (r == m || r == n)
  {
    if m < n then m else n
  }

  /** `zip` stops at the shorter of its two arguments. */
  function PageCells(page: int, results: seq<TableResult>, reqs: seq<TableRequest>): seq<FinalRegion>
  {
    var n := Shorter(|results|, |reqs|);
    ZipCells(page, results[..n], reqs[..n])
  }

  /** `final_regions` after table decomposition.  `outcome` is the
      recognizer's answer (`None` when it raised); it is consulted only when
      there is at least one table. */
  function Decomposed(regions: seq<Region>, lines: seq<Box>, page: int, outcome: Option<seq<TableResult>>): seq<FinalRegion>
  {
    var reqs := TableRequests(regions, lines);
    if reqs == [] then NonTableRegions(regions)
    else match outcome
      case None => NonTableRegions(regions) + TableRegions(regions)
      case Some(results) => NonTableRegions(regions) + PageCells(page, results, reqs)
  }

  lemma {:induction false} TableRequestsCount(regions: seq<Region>, lines: seq<Box>)
    ensures |TableRequests(regions, lines)| == |TableRegions(regions)|
  {
    if regions != [] {
      TableRequestsCount(regions[..|regions| - 1], lines);
    }
  }

  /** A cell is emitted exactly when it is some recognised cell of some
      table, moved by that table's corner. */
  lemma ZipCellsMembers(page: int, results: seq<TableResult>, reqs: seq<TableRequest>, e: FinalRegion)
    requires |results| == |reqs|
    ensures e in ZipCells(page, results, reqs) <==>
              exists t, k :: 0 <= t < |reqs| && 0 <= k < |results[t].cells| && e == CellRegion(page, reqs[t], results[t].cells[k])
  {
    if e in ZipCells(page, results, reqs) {
      ZipCellsFrom(page, results, reqs, e);
    }
    if exists t, k :: 0 <= t < |reqs| && 0 <= k < |results[t].cells| && e == CellRegion(page, reqs[t], results[t].cells[k]) {
      var t, k :| 0 <= t < |reqs| && 0 <= k < |results[t].cells| && e == CellRegion(page, reqs[t], results[t].cells[k]);
      ZipCellsAt(page, results, reqs, t);
      assert TableCellRegions(page, results[t], reqs[t])[k] == e;
    }
  }

  lemma {:induction false} ZipCellsFrom(page: int, results: seq<TableResult>, reqs: seq<TableRequest>, e: FinalRegion)
    requires |results| == |reqs|
    requires e in ZipCells(page, results, reqs)
    ensures exists t, k :: 0 <= t < |reqs| && 0 <= k < |results[t].cells| && e == CellRegion(page, reqs[t], results[t].cells[k])
  {
    var n := |results| - 1;
    if e in ZipCells(page, results[..n], reqs[..n]) {
      ZipCellsFrom(page, results[..n], reqs[..n], e);
      var t, k :| 0 <= t < n && 0 <= k < |results[..n][t].cells| && e == CellRegion(page, reqs[..n][t], results[..n][t].cells[k]);
      assert results[..n][t] == results[t] && reqs[..n][t] == reqs[t];
    } else {
      var k :| 0 <= k < |results[n].cells| && TableCellRegions(page, results[n], reqs[n])[k] == e;
    }
  }

  lemma ZipCellsSnoc(page: int, r: seq<TableResult>, q: seq<TableRequest>, x: TableResult, y: TableRequest)
    requires |r| == |q|
    ensures ZipCells(page, r + [x], q + [y]) == ZipCells(page, r, q) + TableCellRegions(page, x, y)
  {
    assert (r + [x])[..|r|] == r;
    assert (q + [y])[..|q|] == q;
  }

  /** Zipping distributes over concatenation. */
  lemma {:induction false} ZipCellsAppend(page: int, r1: seq<TableResult>, q1: seq<TableRequest>, r2: seq<TableResult>, q2: seq<TableRequest>)
    requires |r1| == |q1| && |r2| == |q2|
    ensures ZipCells(page, r1 + r2, q1 + q2) == ZipCells(page, r1, q1) + ZipCells(page, r2, q2)
  {
    if r2 == [] {
      assert r1 + r2 == r1 && q1 + q2 == q1;
    } else {
      var n := |r2| - 1;
      var ri, qi, x, y := r2[..n], q2[..n], r2[n], q2[n];
      ZipCellsAppend(page, r1, q1, ri, qi);
      ZipCellsAppendSnoc(page, r1, q1, ri, qi, x, y);
      assert ri + [x] == r2 && qi + [y] == q2;
    }
  }

  /** The inductive step of `ZipCellsAppend`: one more pair at the end. */
  lemma ZipCellsAppendSnoc(page: int, r1: seq<TableResult>, q1: seq<TableRequest>, ri: seq<TableResult>, qi: seq<TableRequest>, x: TableResult, y: TableRequest)
    requires |r1| == |q1| && |ri| == |qi|
    requires ZipCells(page, r1 + ri, q1 + qi) == ZipCells(page, r1, q1) + ZipCells(page, ri, qi)
    ensures ZipCells(page, r1 + (ri + [x]), q1 + (qi + [y])) == ZipCells(page, r1, q1) + ZipCells(page, ri + [x], qi + [y])
  {
    var a, b, c := ZipCells(page, r1, q1), ZipCells(page, ri, qi), TableCellRegions(page, x, y);
    calc {
      ZipCells(page, r1 + (ri + [x]), q1 + (qi + [y]));
      { assert r1 + (ri + [x]) == (r1 + ri) + [x] && q1 + (qi + [y]) == (q1 + qi) + [y]; }
      ZipCells(page, (r1 + ri) + [x], (q1 + qi) + [y]);
      { ZipCellsSnoc(page, r1 + ri, q1 + qi, x, y); }
      (a + b) + c;
      { ConcatAssoc(a, b, c); }
      a + (b + c);
      { ZipCellsSnoc(page, ri, qi, x, y); }
      a + ZipCells(page, ri + [x], qi + [y]);
    }
  }

  /** The cells of the t-th table come after those of the tables before
      it and before those of the tables after it, in the recognizer's
      order. */
  lemma ZipCellsAt(page: int, results: seq<TableResult>, reqs: seq<TableRequest>, t: int)
    requires |results| == |reqs| && 0 <= t < |results|
    ensures ZipCells(page, results, reqs)
         == ZipCells(page, results[..t], reqs[..t]) + TableCellRegions(page, results[t], reqs[t]) + ZipCells(page, results[t + 1..], reqs[t + 1..])
  {
    var pre, one, post := results[..t], [results[t]], results[t + 1..];
    var qpre, req, qpost := reqs[..t], [reqs[t]], reqs[t + 1..];
    var cells := TableCellRegions(page, results[t], reqs[t]);
    calc {
      ZipCells(page, results, reqs);
      { SplitAround(results, t); SplitAround(reqs, t); }
      ZipCells(page, pre + (one + post), qpre + (req + qpost));
      { ZipCellsAppend(page, pre, qpre, one + post, req + qpost); }
      ZipCells(page, pre, qpre) + ZipCells(page, one + post, req + qpost);
      { ZipCellsAppend(page, one, req, post, qpost); }
      ZipCells(page, pre, qpre) + (ZipCells(page, one, req) + ZipCells(page, post, qpost));
      { ZipCellsSnoc(page, [], [], results[t], reqs[t]); assert [] + one == one && [] + req == req; }
      ZipCells(page, pre, qpre) + (cells + ZipCells(page, post, qpost));
      { ConcatAssoc(ZipCells(page, pre, qpre), cells, ZipCells(page, post, qpost)); }
      ZipCells(page, pre, qpre) + cells + ZipCells(page, post, qpost);
    }
  }

  /** The non-table regions come first, whole and in their order. */
  lemma DecomposedPrefix(regions: seq<Region>, lines: seq<Box>, page: int, outcome: Option<seq<TableResult>>)
    ensures Decomposed(regions, lines, page, outcome)[..|NonTableRegions(regions)|] == NonTableRegions(regions)
  {
  }

  /** Without Table regions the recognizer is not consulted; when it fails,
      every Table region is appended whole. */
  lemma DecomposedFallback(regions: seq<Region>, lines: seq<Box>, page: int, outcome: Option<seq<TableResult>>)
    ensures (forall r :: r in regions ==> !IsTable(r)) ==> Decomposed(regions, lines, page, outcome) == NonTableRegions(regions)
    ensures outcome.None? ==> Decomposed(regions, lines, page, outcome) == NonTableRegions(regions) + TableRegions(regions)
  {
    TableRequestsCount(regions, lines);
    if TableRequests(regions, lines) == [] {
      NoTablesEmpty(regions);
      assert TableRegions(regions) == [];
    }
    if forall r :: r in regions ==> !IsTable(r) {
      NoTablesNoRequests(regions, lines);
    }
  }

  /** Each emitted cell is a recognizer cell moved by its table's corner (so
      moving it back gives the local cell exactly), keeping its row and column
      and named after the page, the table's position, the row and the column. */
  predicate IsCellOf(e: FinalRegion, page: int, req: TableRequest, cell: TableCell)
  {
    && e.Cell?
    && e.filename == CellFileName(page, req.position, cell.row, cell.col)
    && Translate(e.box, -req.table.x1, -req.table.y1) == cell.box
    && e.row == cell.row && e.col == cell.col
  }

  /** A cell of a successful decomposition is exactly a recognised cell of
      the t-th table's result, for a table that has both a request and a
      result. */
  lemma DecomposedCells(regions: seq<Region>, lines: seq<Box>, page: int, results: seq<TableResult>, e: FinalRegion)
    requires e.Cell?
    ensures e in Decomposed(regions, lines, page, Some(results)) <==>
              exists t, k ::
                && 0 <= t < |TableRequests(regions, lines)| && t < |results| && 0 <= k < |results[t].cells|
                && IsCellOf(e, page, TableRequests(regions, lines)[t], results[t].cells[k])
  {
    var reqs := TableRequests(regions, lines);
    var nt := NonTableRegions(regions);
    assert e !in nt;
    if e in Decomposed(regions, lines, page, Some(results)) {
      assert reqs != [];
      assert Decomposed(regions, lines, page, Some(results)) == nt + PageCells(page, results, reqs);
      PageCellsMembers(page, results, reqs, e);
      var t, k :| 0 <= t < |reqs| && t < |results| && 0 <= k < |results[t].cells| && e == CellRegion(page, reqs[t], results[t].cells[k]);
      CellRegionIsCellOf(page, reqs[t], results[t].cells[k]);
    }
    if exists t, k :: 0 <= t < |reqs| && t < |results| && 0 <= k < |results[t].cells| && IsCellOf(e, page, reqs[t], results[t].cells[k]) {
      var t, k :| 0 <= t < |reqs| && t < |results| && 0 <= k < |results[t].cells| && IsCellOf(e, page, reqs[t], results[t].cells[k]);
      CellOfIsCellRegion(e, page, reqs[t], results[t].cells[k]);
      DecomposedCellsComplete(regions, lines, page, results, t, k);
    }
  }

  /** Every recognised cell of a table that has both a request and a result
      is emitted. */
  lemma DecomposedCellsComplete(regions: seq<Region>, lines: seq<Box>, page: int, results: seq<TableResult>, t: int, k: int)
    requires 0 <= t < |TableRequests(regions, lines)| && t < |results| && 0 <= k < |results[t].cells|
    ensures CellRegion(page, TableRequests(regions, lines)[t], results[t].cells[k]) in Decomposed(regions, lines, page, Some(results))
  {
    PageCellsHas(page, results, TableRequests(regions, lines), t, k);
  }

  /** Under `zip`, the cells of the t-th table come after those of the
      tables before it and before those of the later tables that have a
      partner, each table's cells in the recognizer's order. */
  lemma PageCellsAt(page: int, results: seq<TableResult>, reqs: seq<TableRequest>, t: int)
    requires 0 <= t < |results| && t < |reqs|
    ensures PageCells(page, results, reqs)
         == ZipCells(page, results[..t], reqs[..t]) + TableCellRegions(page, results[t], reqs[t])
              + ZipCells(page, results[t + 1..Shorter(|results|, |reqs|)], reqs[t + 1..Shorter(|results|, |reqs|)])
  {
    var n := Shorter(|results|, |reqs|);
    ZipCellsAt(page, results[..n], reqs[..n], t);
    assert results[..n][..t] == results[..t] && reqs[..n][..t] == reqs[..t];
    assert results[..n][t + 1..] == results[t + 1..n] && reqs[..n][t + 1..] == reqs[t + 1..n];
  }

  /** `zip` pairs the t-th result with the t-th request, for every t below
      the shorter length. */
  lemma PageCellsMembers(page: int, results: seq<TableResult>, reqs: seq<TableRequest>, e: FinalRegion)
    ensures e in PageCells(page, results, reqs) <==>
              exists t, k :: 0 <= t < |reqs| && t < |results| && 0 <= k < |results[t].cells| && e == CellRegion(page, reqs[t], results[t].cells[k])
  {
    if e in PageCells(page, results, reqs) {
      PageCellsFrom(page, results, reqs, e);
    }
    if exists t, k :: 0 <= t < |reqs| && t < |results| && 0 <= k < |results[t].cells| && e == CellRegion(page, reqs[t], results[t].cells[k]) {
      var t, k :| 0 <= t < |reqs| && t < |results| && 0 <= k < |results[t].cells| && e == CellRegion(page, reqs[t], results[t].cells[k]);
      PageCellsHas(page, results, reqs, t, k);
    }
  }

  lemma PageCellsFrom(page: int, results: seq<TableResult>, reqs: seq<TableRequest>, e: FinalRegion)
    requires e in PageCells(page, results, reqs)
    ensures exists t, k :: 0 <= t < |reqs| && t < |results| && 0 <= k < |results[t].cells| && e == CellRegion(page, reqs[t], results[t].cells[k])
  {
    var n := Shorter(|results|, |reqs|);
    ZipCellsFrom(page, results[..n], reqs[..n], e);
    var t, k :| 0 <= t < n && 0 <= k < |results[..n][t].cells| && e == CellRegion(page, reqs[..n][t], results[..n][t].cells[k]);
    assert results[..n][t] == results[t] && reqs[..n][t] == reqs[t];
  }

  lemma PageCellsHas(page: int, results: seq<TableResult>, reqs: seq<TableRequest>, t: int, k: int)
    requires 0 <= t < |reqs| && t < |results| && 0 <= k < |results[t].cells|
    ensures CellRegion(page, reqs[t], results[t].cells[k]) in PageCells(page, results, reqs)
  {
    PageCellsAt(page, results, reqs, t);
    assert TableCellRegions(page, results[t], reqs[t])[k] == CellRegion(page, reqs[t], results[t].cells[k]);
  }

  lemma CellRegionIsCellOf(page: int, req: TableRequest, cell: TableCell)
    ensures IsCellOf(CellRegion(page, req, cell), page, req, cell)
  {
    TranslateRoundTrip(cell.box, req.table.x1, req.table.y1);
  }

  /** `IsCellOf` pins the emitted region down completely. */
  lemma CellOfIsCellRegion(e: FinalRegion, page: int, req: TableRequest, cell: TableCell)
    requires IsCellOf(e, page, req, cell)
    ensures e == CellRegion(page, req, cell)
  {
    TranslateRoundTrip(e.box, req.table.x1, req.table.y1);
  }

  lemma {:induction false} NoTablesNoRequests(regions: seq<Region>, lines: seq<Box>)
    requires forall r :: r in regions ==> !IsTable(r)
    ensures TableRequests(regions, lines) == []
  {
    if regions != [] {
      var init := regions[..|regions| - 1];
      assert forall r :: r in init ==> r in regions;
      NoTablesNoRequests(init, lines);
    }
  }

  lemma {:induction false} NoTablesEmpty(regions: seq<Region>)
    requires TableRegions(regions) == []
    ensures forall r :: r in regions ==> !IsTable(r)
  {
    if regions != [] {
      NoTablesEmpty(regions[..|regions| - 1]);
      assert forall r :: r in regions ==> r in regions[..|regions| - 1] || r == regions[|regions| - 1];
    }
  }

  /** The loop over the adjusted regions: non-tables go straight to
      `final_regions`, each table becomes a recognizer request. */
  method CollectTables(regions: seq<Region>, lines: seq<Box>)
    returns (finalRegions: seq<FinalRegion>, requests: seq<TableRequest>)
    ensures finalRegions == NonTableRegions(regions)
    ensures requests == TableRequests(regions, lines)
  {
    finalRegions := [];
    requests := [];
    var i := 0;
    while i < |regions|
      invariant 0 <= i <= |regions|
      invariant finalRegions == NonTableRegions(regions[..i])
      invariant requests == TableRequests(regions[..i], lines)
    {
      var region := regions[i];
      if IsTable(region) {
        requests := requests + [TableRequest(region.position, region.box, CandidateCells(region.box, lines))];
      } else {
        finalRegions := finalRegions + [Whole(region)];
      }
      assert regions[..i + 1][..i] == regions[..i];
      i := i + 1;
    }
    assert regions[..i] == regions;
  }

  /** The cells of one table, moved to page coordinates and named. */
  method TableCellsInPlace(page: int, result: TableResult, req: TableRequest) returns (cells: seq<FinalRegion>)
    ensures cells == TableCellRegions(page, result, req)
  {
    cells := [];
    var k := 0;
    while k < |result.cells|
      invariant 0 <= k <= |result.cells|
      invariant cells == TableCellRegions(page, result, req)[..k]
    {
      var cell := result.cells[k];
      var x1, y1 := cell.box.x1 + req.table.x1, cell.box.y1 + req.table.y1;
      var x2, y2 := cell.box.x2 + req.table.x1, cell.box.y2 + req.table.y1;
      var filename := CellFileName(page, req.position, cell.row, cell.col);
      cells := cells + [Cell(Box(x1, y1, x2, y2), filename, cell.row, cell.col)];
      assert TableCellRegions(page, result, req)[..k + 1] == TableCellRegions(page, result, req)[..k] + [CellRegion(page, req, cell)];
      k := k + 1;
    }
    assert TableCellRegions(page, result, req)[..k] == TableCellRegions(page, result, req);
  }

  /** `for table_result, (position, ...) in zip(table_results, table_positions)`. */
  method EmitCells(page: int, results: seq<TableResult>, requests: seq<TableRequest>) returns (cells: seq<FinalRegion>)
    ensures cells == PageCells(page, results, requests)
  {
    var n := if |results| < |requests| then |results| else |requests|;
    cells := [];
    var t := 0;
    while t < n
      invariant 0 <= t <= n
      invariant cells == ZipCells(page, results[..t], requests[..t])
    {
      var more := TableCellsInPlace(page, results[t], requests[t]);
      cells := cells + more;
      assert results[..t + 1][..t] == results[..t] && requests[..t + 1][..t] == requests[..t];
      t := t + 1;
    }
    assert results[..n] == results[..t] && requests[..n] == requests[..t];
  }

  /** The fallback: `[region for region in ... if region[4] == 'Table']`. */
  method EmitTables(regions: seq<Region>) returns (tables: seq<FinalRegion>)
    ensures tables == TableRegions(regions)
  {
    tables := [];
    var j := 0;
    while j < |regions|
      invariant 0 <= j <= |regions|
      invariant tables == TableRegions(regions[..j])
    {
      if IsTable(regions[j]) {
        tables := tables + [Whole(regions[j])];
      }
      assert regions[..j + 1][..j] == regions[..j];
      j := j + 1;
    }
    assert regions[..j] == regions;
  }

  /** Table decomposition of one page. */
  method DecomposeTables(regions: seq<Region>, lines: seq<Box>, page: int, outcome: Option<seq<TableResult>>)
    returns (finalRegions: seq<FinalRegion>, requests: seq<TableRequest>)
    ensures requests == TableRequests(regions, lines)
    ensures finalRegions == Decomposed(regions, lines, page, outcome)
  {
    finalRegions, requests := CollectTables(regions, lines);
    if |requests| > 0 {
      match outcome {
        case Some(results) =>
          var cells := EmitCells(page, results, requests);
          finalRegions := finalRegions + cells;
        case None =>
          var tables := EmitTables(regions);
          finalRegions := finalRegions + tables;
      }
    }
  }
}
