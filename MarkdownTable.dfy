/** `convert_table` of the HTML-to-markdown conversion, over a table given
    as its rows, each row the texts of its `td` cells: a blank header row and
    a `---` separator row as wide as the widest row, then every row padded
    with empty cells to that width. */
module MarkdownTable {
  import opened Strings

  /** The texts of one `tr`'s `td` cells. */
  type Row = seq<string>

  /** The number of times `c` occurs in `s`. */
  function Occurrences(c: char, s: string): nat
  {
    if s == [] then 0 else Occurrences(c, s[..|s| - 1]) + (if s[|s| - 1] == c then 1 else 0)
  }

  lemma {:induction false} OccurrencesAppend(c: char, s: string, t: string)
    ensures Occurrences(c, s + t) == Occurrences(c, s) + Occurrences(c, t)
  {
    if t == [] {
      assert s + t == s;
    } else {
      assert (s + t)[..|s + t| - 1] == s + t[..|t| - 1];
      assert (s + t)[|s + t| - 1] == t[|t| - 1];
      OccurrencesAppend(c, s, t[..|t| - 1]);
    }
  }

  lemma {:induction false} OccurrencesAbsent(c: char, s: string)
    requires c !in s
    ensures Occurrences(c, s) == 0
  {
    if s != [] {
      assert c !in s[..|s| - 1];
      OccurrencesAbsent(c, s[..|s| - 1]);
    }
  }

  /** Python's `s * n`. */
  function Repeat(s: string, n: nat): string
  {
    if n == 0 then "" else Repeat(s, n - 1) + s
  }

  lemma {:induction false} OccurrencesRepeat(c: char, s: string, n: nat)
    ensures Occurrences(c, Repeat(s, n)) == n * Occurrences(c, s)
  {
    if n > 0 {
      OccurrencesRepeat(c, s, n - 1);
      OccurrencesAppend(c, Repeat(s, n - 1), s);
    }
  }

  /** A join of parts free of `c` holds `c` only inside the separators. */
  lemma {:induction false} OccurrencesJoin(c: char, sep: string, parts: seq<string>)
    requires |parts| >= 1
    requires forall i :: 0 <= i < |parts| ==> c !in parts[i]
    ensures Occurrences(c, Join(sep, parts)) == (|parts| - 1) * Occurrences(c, sep)
  {
    OccurrencesAbsent(c, parts[0]);
    if |parts| > 1 {
      OccurrencesJoin(c, sep, parts[1..]);
      OccurrencesAppend(c, parts[0], sep);
      OccurrencesAppend(c, parts[0] + sep, Join(sep, parts[1..]));
    }
  }

  /** Python's `[x] * n`. */
  function Copies(x: string, n: nat): seq<string>
  {
    seq(n, _ => x)
  }

  /** `max(len(row.find_all('td')) for row in rows)`, taken as 0 when there
      are no rows (the source returns before computing it). */
  function MaxCells(rows: seq<Row>): (m: nat)
    ensures forall i :: 0 <= i < |rows| ==> |rows[i]| <= m
    ensures rows != [] ==> exists i :: 0 <= i < |rows| && |rows[i]| == m
  {
    if rows == [] then 0
    else
      var m := MaxCells(rows[..|rows| - 1]);
      if |rows[|rows| - 1]| > m then |rows[|rows| - 1]| else m
  }

  /** The header row: `max_cells` empty cells. */
  function HeaderLine(n: nat): string
  {
    "| " + Join(" | ", Copies("", n)) + " |\n"
  }

  /** The separator row: `max_cells` cells of `---`. */
  function SeparatorLine(n: nat): string
  {
    "| " + Join(" | ", Copies("---", n)) + " |\n"
  }

  /** `cell.get_text().strip()` for each cell. */
  function StripAll(cells: Row): (texts: seq<string>)
    ensures |texts| == |cells|
  {
    if cells == [] then [] else StripAll(cells[..|cells| - 1]) + [Strip(cells[|cells| - 1])]
  }

  /** One body row: its stripped cells, then an empty cell for each cell it
      lacks (`" | " * (max_cells - len(cells))`, empty when negative). */
  function RowLine(cells: Row, n: nat): string
  {
    "| " + Join(" | ", StripAll(cells)) + Repeat(" | ", if |cells| <= n then n - |cells| else 0) + " |\n"
  }

  /** The body rows, one line each, in order. */
  function RowLines(rows: seq<Row>, n: nat): string
  {
    if rows == [] then "" else RowLines(rows[..|rows| - 1], n) + RowLine(rows[|rows| - 1], n)
  }

  /** The markdown `convert_table` returns. */
  function TableText(rows: seq<Row>): (text: string)
    ensures text == "" <==> rows == []
  {
    if rows == [] then ""
    else
      var n := MaxCells(rows);
      HeaderLine(n) + SeparatorLine(n) + RowLines(rows, n) + "\n"
  }

  /** Appending the next row's line to the text so far. */
  lemma RowLinesSnoc(head: string, rows: seq<Row>, i: nat, n: nat)
    requires i < |rows|
    ensures head + RowLines(rows[..i], n) + RowLine(rows[i], n) == head + RowLines(rows[..i + 1], n)
  {
    assert rows[..i + 1][..i] == rows[..i];
  }

  /** `convert_table`, accumulating the text row by row. */
  method ConvertTable(rows: seq<Row>) returns (markdown: string)
    ensures markdown == TableText(rows)
  {
    if rows == [] {
      return "";
    }
    var n := MaxCells(rows);
    markdown := HeaderLine(n);
    markdown := markdown + SeparatorLine(n);
    ghost var head := markdown;
    assert rows[..0] == [];
    assert markdown == head + RowLines(rows[..0], n);
    for i := 0 to |rows|
      invariant markdown == head + RowLines(rows[..i], n)
    {
      RowLinesSnoc(head, rows, i, n);
      markdown := markdown + RowLine(rows[i], n);
    }
    assert rows[..|rows|] == rows;
    markdown := markdown + "\n";
  }

  /** Stripping never introduces a character. */
  lemma StripKeepsOut(c: char, s: string)
    requires c !in s
    ensures c !in Strip(s)
  {
    var t := TrimStart(s);
    TrimStartWhitespace(s);
    forall i | 0 <= i < |t|
      ensures t[i] != c
    {
      assert t[i] == s[|s| - |t| + i];
    }
    var r := TrimEnd(t);
    TrimEndWhitespace(t);
    forall i | 0 <= i < |r|
      ensures r[i] != c
    {
      assert r[i] == t[i];
    }
  }

  /** A row of `k` empty or `---` cells has `k + 1` pipes, once `k >= 1`. */
  lemma FillerPipes(x: string, n: nat)
    requires n >= 1 && '|' !in x
    ensures Occurrences('|', "| " + Join(" | ", Copies(x, n)) + " |\n") == n + 1
  {
    PipesJoin(Copies(x, n));
    OccurrencesAppend('|', "| ", Join(" | ", Copies(x, n)));
    OccurrencesAppend('|', "| " + Join(" | ", Copies(x, n)), " |\n");
    PipeLiterals();
  }

  /** The header and separator rows have `max_cells` columns. */
  lemma HeaderPipes(n: nat)
    requires n >= 1
    ensures Occurrences('|', HeaderLine(n)) == n + 1
    ensures Occurrences('|', SeparatorLine(n)) == n + 1
  {
    FillerPipes("", n);
    FillerPipes("---", n);
  }

  /** A row of `k >= 1` pipe-free cells, padded to `n >= k` columns, has
      exactly `n + 1` pipes: all rows line up with the header. */
  lemma RowPipes(cells: Row, n: nat)
    requires 1 <= |cells| <= n
    requires forall i :: 0 <= i < |cells| ==> '|' !in cells[i]
    ensures Occurrences('|', RowLine(cells, n)) == n + 1
  {
    var texts := StripAll(cells);
    StripAllPipeFree(cells);
    PipeLiterals();
    var joined := Join(" | ", texts);
    PipesJoin(texts);
    var pad := Repeat(" | ", n - |cells|);
    PipesRepeat(n - |cells|);
    Occurrences4('|', "| ", joined, pad, " |\n");
    assert RowLine(cells, n) == "| " + joined + pad + " |\n";
  }

  lemma PipesJoin(parts: seq<string>)
    requires |parts| >= 1
    requires forall i :: 0 <= i < |parts| ==> '|' !in parts[i]
    ensures Occurrences('|', Join(" | ", parts)) == |parts| - 1
  {
    PipeLiterals();
    OccurrencesJoin('|', " | ", parts);
    var k := |parts| - 1;
    assert k * Occurrences('|', " | ") == k * 1;
  }

  lemma PipesRepeat(k: nat)
    ensures Occurrences('|', Repeat(" | ", k)) == k
  {
    OccurrencesRepeat('|', " | ", k);
    PipeLiterals();
  }

  lemma Occurrences4(c: char, a: string, b: string, d: string, e: string)
    ensures Occurrences(c, a + b + d + e) == Occurrences(c, a) + Occurrences(c, b) + Occurrences(c, d) + Occurrences(c, e)
  {
    OccurrencesAppend(c, a, b);
    OccurrencesAppend(c, a + b, d);
    OccurrencesAppend(c, a + b + d, e);
  }

  lemma PipeLiterals()
    ensures Occurrences('|', " | ") == 1
    ensures Occurrences('|', "| ") == 1
    ensures Occurrences('|', " |\n") == 1
  {
  }

  lemma {:induction false} StripAllPipeFree(cells: Row)
    requires forall i :: 0 <= i < |cells| ==> '|' !in cells[i]
    ensures forall i :: 0 <= i < |cells| ==> '|' !in StripAll(cells)[i]
  {
    if cells != [] {
      var init := cells[..|cells| - 1];
      assert forall i :: 0 <= i < |init| ==> init[i] == cells[i];
      StripAllPipeFree(init);
      StripKeepsOut('|', cells[|cells| - 1]);
    }
  }

  /** Every non-empty row of a table of pipe-free cells lines up with the
      header: each has `max_cells + 1` pipes. */
  lemma TableRowsAligned(rows: seq<Row>, i: int)
    requires 0 <= i < |rows| && |rows[i]| >= 1
    requires forall r, j :: 0 <= r < |rows| && 0 <= j < |rows[r]| ==> '|' !in rows[r][j]
    ensures Occurrences('|', RowLine(rows[i], MaxCells(rows))) == MaxCells(rows) + 1
    ensures Occurrences('|', HeaderLine(MaxCells(rows))) == MaxCells(rows) + 1
  {
    RowPipes(rows[i], MaxCells(rows));
    HeaderPipes(MaxCells(rows));
  }

  /** A row with no `td` cells (a row of `th` cells, say) is padded with
      `n` separators after an empty join, so it has `n + 2` pipes: one
      column more than the header. */
  lemma EmptyRowPipes(n: nat)
    ensures Occurrences('|', RowLine([], n)) == n + 2
  {
    PipesRepeat(n);
    PipeLiterals();
    var pad := Repeat(" | ", n);
    Occurrences4('|', "| ", "", pad, " |\n");
    assert RowLine([], n) == "| " + "" + pad + " |\n";
  }
}
