# Document-digitisation pipeline: region fusion, sheet labelling and helpers

This project models, in Dafny, the deterministic core of a document-digitisation pipeline:

- **The layout step (`layout.py`).** For each page, it fuses the regions that several perception models predict:
  - flatten the predictions;
  - drop `Text` boxes from the sparse prediction;
  - consolidate the sparse and layout regions under two deletion rules;
  - number the regions, and collapse a degenerate page into one box;
  - reconcile the regions with the reading-order prediction;
  - expand every box one pixel per sweep, to a fixed point on each axis;
  - decompose tables into cells;
  - name the exported region images.
- **The spreadsheet labeller (`markdown.py`).**
  - Flood-fill the non-empty cells into continuous bodies.
  - Pick each body's left and top edge cells, and its unique leftmost and topmost cells.
  - Assemble the x/y label record of each cell.
  - Render an HTML table as a padded markdown table.
- **The driver (`start.py`).** Filter PDF names, read and write the line-oriented identifier-status file, and split a document into page chunks.
- **The page-processing step (`process_document.py`).** Compute the box of a word polygon, box heights and widths, the page range of a chunk, and the page-folder names.
- **The PDF loader of the text-recognition package (`projectpackages/surya/input/load.py`).** Compute the document name, and the page indices and names `load_pdf` selects.

The perception models are not modelled: their outputs are inputs to the model. File contents enter as strings, and a missing file as `None`.

Coordinates are integers throughout. Boxes are `Geometry.Box(x1, y1, x2, y2)`. A region is a box with its label, id and reading position.

The imperative parts keep their form, as methods proved equal to specification functions:

- `Expander` runs the in-place fixed-point sweeps over an `array`.
- `Sorting.InsertionSort` is an in-place stable sort, specified by the functional `SortBy`.
- `Bodies.ContinuousBodies` and `FloodFill` use a work queue and a visited set.
- The remaining methods are list- and map-building loops.

## Model

| member | source | states |
|---|---|---|
| Geometry.RectOverlap | layout.py:100-110 | for well-formed boxes, overlap holds exactly when the closed x-intervals meet and the closed y-intervals meet, so touching edges count |
| Geometry.ValueInRange | layout.py:100-101 | (definition) the closed range test `lo <= value <= hi`; used through RectOverlap |
| Geometry.RectOverlapSymmetric | layout.py:103-110 | the overlap test does not depend on the order of its arguments |
| Geometry.FullEncapsulation | layout.py:112-115 | an encapsulated box is non-degenerate on both axes and lies inside a well-formed primary box |
| Geometry.EncapsulationImpliesOverlap | layout.py:112-115 | a fully encapsulated box overlaps its primary box |
| Geometry.OverlapGrows | layout.py:103-110 | enlarging two overlapping well-formed boxes keeps them overlapping |
| Geometry.Translate | layout.py:305 | translation keeps a box's width and height and moves its corner by the offset |
| Geometry.TranslateRoundTrip | layout.py:305-321 | moving a cell into table-local coordinates and back (and the other way round) gives the original box |
| Labels.ShortenedLabel | layout.py:30-36 | the code is `u` exactly for labels outside the twelve known ones, and is never empty |
| Labels.ShortenedLabelInjective | layout.py:31-35 | distinct known labels get distinct codes |
| Regions.FlattenAppend | layout.py:12-18 | flattening distributes over concatenation of prediction lists |
| Regions.FlattenMembers | layout.py:12-18 | a box is in the flattened list exactly when some prediction holds it |
| Regions.Flatten | layout.py:14-17 | (definition) the prediction boxes concatenated in prediction order; stated by FlattenAppend and FlattenMembers |
| Regions.ExtractBoundingBoxes | layout.py:12-18 | the nested loop appends every prediction's boxes, in order |
| Regions.FilterTextLabels | layout.py:20-21 | the kept boxes are exactly the input boxes whose label is not `Text` |
| Regions.FilterTextLabelsAppend | layout.py:20-21 | filtering distributes over concatenation, so order is kept |
| Regions.FilterTextLabelsIdempotent | layout.py:20-21 | filtering twice is filtering once |
| Regions.FilterTextLabelsCount | layout.py:20-21 | kept boxes plus removed `Text` boxes number the input |
| Regions.AssignBoxIds | layout.py:38-39 | one region per box, the i-th carrying id i |
| Regions.AssignBoxIdsRoundTrip | layout.py:38-39 | ids are distinct, and dropping them gives back the boxes in order |
| Regions.MinOf | layout.py:237-238 | the minimum is an element and bounds every element from below |
| Regions.MaxOf | layout.py:239-240 | the maximum is an element and bounds every element from above |
| Regions.DegeneracyGuard | layout.py:236-241 | fewer than 255 regions are unchanged; otherwise one `Text` region with id 0 whose box contains every input box and whose every edge is some input box's edge |
| Consolidation.Survivors | layout.py:121-127 | a layout region survives exactly when no sparse region deletes it under either rule |
| Consolidation.Supersedes | layout.py:123 | (definition) rule A (a structural sparse line that overlaps the region and is more than half as tall as it) or rule B (an encapsulating sparse region that contains the region, edges allowed to touch, the region having positive width and height); used through Survivors |
| Consolidation.SurvivorsAppend | layout.py:127 | survivors of a concatenation are the concatenated survivors, so order is kept |
| Consolidation.UnmarkedNone | layout.py:119-126 | with no index marked for deletion, the sparse list comes back whole |
| Consolidation.UnmarkedIsSurvivors | layout.py:121-127 | dropping the indices the nested loop marks leaves exactly the survivors |
| Consolidation.ConsolidateRegions | layout.py:117-129 | the result is every sparse region in order, followed by the surviving layout regions in order |
| Consolidation.SurvivorsExample | layout.py:123 | a title covering most of a text line's height deletes it; a title it does not touch leaves it |
| Ordering.CoordMap | layout.py:264 | every key of the coordinate map maps to a region with that box |
| Ordering.CoordMapDomain | layout.py:264 | a box is a key exactly when some region has that box |
| Ordering.CoordMapValue | layout.py:264 | a key maps to the last region with that box |
| Ordering.Stamped | layout.py:266-273 | stamping yields at most one region per predicted box |
| Ordering.StampedMembers | layout.py:266-273 | a stamped region is exactly the mapped region of a matching predicted box, with that box's position |
| Ordering.Stamp | layout.py:270-273 | (definition) the matched region with the predicted box's position appended; used through StampedMembers |
| Ordering.Reconciled | layout.py:262-275 | (definition) the stamped list sorted stably by position; stated by ReconciledSortedStable and ReconciledEntries |
| Ordering.ReconcileOrder | layout.py:262-275 | the loop and the in-place sort produce the reconciled list |
| Ordering.ReconciledSortedStable | layout.py:275 | the reconciled list is sorted by position, and regions of equal position keep their stamping order |
| Ordering.ReconciledEntries | layout.py:264-275 | every entry is an input region with the position of an exactly matching predicted box; every matched predicted box contributes; misses contribute nothing |
| Sorting.Insert | layout.py:275 | inserting one element lengthens the list by one; where it goes is stated by InsertCut |
| Sorting.InsertCut | layout.py:275 | insertion puts the element after every element with a key at most its own and before every element with a larger key |
| Sorting.InsertSorted | layout.py:275 | inserting into a sorted list keeps it sorted |
| Sorting.InsertPermutes | layout.py:275 | insertion adds exactly the one element |
| Sorting.InsertKeyClass | layout.py:275 | insertion appends the element to the elements of its key and leaves the other keys' elements alone |
| Sorting.SortBy | layout.py:275 | the stable sort by key keeps the length; its meaning is stated by SortBySorted, SortByStable and SortByUnique |
| Sorting.SortBySorted | layout.py:275 | the result is sorted by key and is a permutation of the input |
| Sorting.SortByStable | layout.py:275 | the elements with any one key keep their input order |
| Sorting.SortByMembers | layout.py:275 | sorting keeps exactly the input's elements |
| Sorting.SortedUnique | layout.py:275 | two sorted lists with the same elements per key, in the same order, are equal |
| Sorting.SortByUnique | layout.py:275 | any sorted list with the input's elements per key, in input order, is the input sorted: Python's stable `sort` is pinned down |
| Sorting.InsertInPlace | layout.py:275 | shifting one element left in the array inserts it into the sorted prefix and leaves the rest alone |
| Sorting.InsertionSort | layout.py:275 | the in-place sort leaves the array holding the stable sort of its old contents |
| Expansion.Grow | layout.py:59-83 | one pixel of growth on one axis: low edge down while above 0, high edge up while below the page limit, the other axis and the label, id and position unchanged |
| Expansion.Step | layout.py:49-64 | a step replaces only the swept element |
| Expansion.Sweep | layout.py:49-64 | one in-order pass over the copy keeps its length; its growth and stability are stated by SweepGrown, SweepFromFixed and SweepKeepsApart |
| Expansion.Relaxed | layout.py:47-66 | the fixed-point loop keeps the length; its properties are stated by RelaxedGrown, RelaxedStable and RelaxedKeepsApart |
| Expansion.Merge | layout.py:88-96 | one merged box per input box; the box itself is stated by MergeExpandedBox and MergeEnlarges |
| Expansion.Adjusted | layout.py:41-98 | one final box per input box; stated further by AdjustedExpanded and AdjustedIdempotent |
| Expansion.StepMeasure | layout.py:58-64 | a step never increases the remaining slack, and a step that changes the copy decreases it |
| Expansion.SweepMeasure | layout.py:47-66 | the same holds for a whole sweep, so the fixed-point loop terminates |
| Expansion.MeasureUpdate | layout.py:63 | replacing one element changes the slack by that element's difference |
| Expansion.GrownTransitive | layout.py:47-66 | growth relations compose across sweeps |
| Expansion.StepGrown | layout.py:49-64 | a step only grows boxes within the page, keeping frozen boxes fixed |
| Expansion.SweepGrown | layout.py:49-64 | a Gauss-Seidel sweep only grows boxes, later boxes seeing earlier updates |
| Expansion.RelaxedGrown | layout.py:47-66 | the fixed point only grows boxes, never past the page unless already there, and keeps Picture and Figure boxes unchanged |
| Expansion.StepStable | layout.py:51-62 | a step leaves the copy unchanged exactly when the box is frozen, overlaps another box, or sits at both limits |
| Expansion.SweepFromKeepsPrefix | layout.py:49 | a sweep from index i leaves earlier elements alone |
| Expansion.SweepFromFixed | layout.py:47-66 | a sweep changes nothing exactly when every box it visits is frozen, overlapping or at its limits |
| Expansion.SweepFixedIffStable | layout.py:65-66 | the loop's stop condition holds exactly when the copy is stable |
| Expansion.RelaxedStable | layout.py:47-86 | on return every non-frozen box of a pass copy overlaps another box of it or sits at both page limits on that axis; a stable copy is returned unchanged |
| Expansion.GrownWellFormed | layout.py:59-60 | growth keeps boxes well-formed |
| Expansion.GrowKeepsApart | layout.py:55-63 | growing a box that overlaps no other box cannot make its interior meet another box |
| Expansion.StepKeepsApart | layout.py:49-64 | a step creates no new interior overlap within the copy |
| Expansion.NoNewOverlapTransitive | layout.py:47-66 | absence of new interior overlap composes across sweeps |
| Expansion.SweepKeepsApart | layout.py:49-64 | a sweep creates no new interior overlap within the copy |
| Expansion.RelaxedKeepsApart | layout.py:47-86 | a whole pass creates no new interior overlap within its copy |
| Expansion.MergeExpandedBox | layout.py:88-96 | the merged box takes y from the vertical copy and x from the horizontal copy, and holds both pass boxes |
| Expansion.AdjustedExpanded | layout.py:41-98 | every final box keeps label, id and position, frozen boxes are unchanged, edges only move outward and only inside the page; a box inside the page stays inside |
| Expansion.ExpandedBox | layout.py:88-96 | (definition) label, id and position kept, a Picture/Figure box unchanged, every edge moved only outward and only up to the page; stated by MergeExpandedBox and AdjustedExpanded |
| Expansion.MergeEnlarges | layout.py:88-96 | the merged copy contains each pass copy box-wise and agrees with it on that pass's axis |
| Expansion.StableEnlarged | layout.py:47-86 | a stable pass copy stays stable when each box is enlarged off-axis |
| Expansion.AdjustedIdempotent | layout.py:41-98 | for well-formed boxes, running the adjustment on its own output returns it unchanged |
| Expander.FindOverlap | layout.py:53-57 | the inner loop finds an overlap exactly when the box meets some other box of the copy |
| Expander.SweepInPlace | layout.py:48-64 | one in-place pass equals the functional sweep, and the flag is set exactly when the array changed |
| Expander.RelaxInPlace | layout.py:47-66 | the `while True` loop leaves the array at the functional fixed point |
| Expander.AdjustBoundingBoxesFinal | layout.py:41-98 | the two passes and the merge produce the specified adjusted regions |
| Tables.CandidateCells | layout.py:304-305 | at most one candidate per line box |
| Tables.CandidateCellsMembers | layout.py:304-305 | candidates are exactly the line boxes the table fully encapsulates, translated to table-local coordinates |
| Tables.CandidateCellsPlaced | layout.py:304-305 | each candidate translated back is a line box, and lies inside the table's local frame |
| Tables.RequestFor | layout.py:300-307 | (definition) the request of one Table region: its position, its rectangle and its candidate cells |
| Tables.TableRequests | layout.py:298-307 | one request per Table region and no more; the t-th request carries the t-th Table region's position, rectangle and candidate cells |
| Tables.TableRequestsCount | layout.py:299-307 | exactly one request per Table region |
| Tables.NonTableRegions | layout.py:308-309 | a whole region is kept exactly when it is an input region that is not a table, and nothing else is kept |
| Tables.TableRegions | layout.py:326 | a whole region is in the fallback exactly when it is an input Table region, and nothing else is |
| Tables.NonTableRegionsAppend | layout.py:298-309 | the kept list distributes over concatenation of the regions, so it keeps their order |
| Tables.TableRegionsAppend | layout.py:326 | the fallback list distributes over concatenation of the regions, so it keeps their order |
| Tables.TableRequestsAppend | layout.py:298-307 | the request list distributes over concatenation of the regions, so requests follow region order |
| Tables.NoUnderscore | layout.py:322 | a decimal integer contains no underscore |
| Tables.JoinFive | layout.py:322 | joining five parts with `_` is their concatenation with separators |
| Tables.CellFileNameSplit | layout.py:322 | a cell file name splits at `_` into page, position, `a`, row and column with `.png` |
| Tables.CellFileNameInjective | layout.py:322 | distinct (page, position, row, column) give distinct cell file names |
| Tables.TableCellRegions | layout.py:316-323 | one final region per recognised cell |
| Tables.CellFileName | layout.py:322 | (definition) `{page}_{position}_a_{row}_{col}.png`; its contract is stated by CellFileNameSplit and CellFileNameInjective |
| Tables.ZipCells | layout.py:315-323 | (definition) the cells of paired results and requests, table by table; stated by ZipCellsMembers, ZipCellsAppend and ZipCellsAt |
| Tables.ZipCellsMembers | layout.py:315-323 | a cell is emitted exactly when it is a recognised cell of some table moved by that table's corner |
| Tables.ZipCellsFrom | layout.py:315-323 | every emitted cell is a recognised cell of some table moved by that table's corner |
| Tables.ZipCellsSnoc | layout.py:315-323 | one more pair appends that table's cells at the end |
| Tables.ZipCellsAppend | layout.py:315-323 | the emitted cells distribute over concatenation of the paired lists |
| Tables.ZipCellsAt | layout.py:315-323 | the t-th table's cells, in the recognizer's order, come after the earlier tables' cells and before the later ones |
| Tables.PageCells | layout.py:315-323 | (definition) `zip` stops at the shorter list; stated by PageCellsMembers and PageCellsAt |
| Tables.PageCellsMembers | layout.py:315-323 | a cell is emitted exactly when it is a recognised cell of the t-th result paired with the t-th request, for t below both lengths |
| Tables.PageCellsFrom | layout.py:315-323 | every emitted cell belongs to a pair below both lengths |
| Tables.PageCellsHas | layout.py:315-323 | every recognised cell of a pair below both lengths is emitted |
| Tables.PageCellsAt | layout.py:315-323 | under `zip`, the t-th table's cells come after those of the earlier tables and before those of the later paired ones |
| Tables.CellRegionIsCellOf | layout.py:317-323 | a cell region is the recognised cell moved back to page coordinates, labelled `a`, named by page, position, row and column |
| Tables.DecomposedPrefix | layout.py:308-309 | the non-table regions come first, in their order |
| Tables.DecomposedFallback | layout.py:311-326 | without tables nothing is added; on recognition failure every Table region is appended |
| Tables.Decomposed | layout.py:298-326 | (definition) the page's final regions; stated by DecomposedPrefix, DecomposedFallback, DecomposedCells and DecomposedCellsComplete |
| Tables.DecomposedCells | layout.py:315-323 | a cell is in a successful decomposition exactly when it is a recognised cell of a table that has both a request and a result |
| Tables.DecomposedCellsComplete | layout.py:315-323 | every recognised cell of the t-th result, for t below both lengths, is emitted for the t-th request |
| Tables.CellOfIsCellRegion | layout.py:317-323 | a region that is a recognised cell of a request is that cell moved back by the table's corner |
| Tables.NoTablesNoRequests | layout.py:298-307 | a page without tables sends no request |
| Tables.NoTablesEmpty | layout.py:326 | no fallback regions means no Table regions |
| Tables.CollectTables | layout.py:298-309 | the loop builds the non-table list and the request list |
| Tables.TableCellsInPlace | layout.py:316-323 | the inner loop builds one table's cell regions |
| Tables.EmitCells | layout.py:315-323 | the outer loop builds the page's cell regions |
| Tables.EmitTables | layout.py:326 | the fallback comprehension collects the Table regions |
| Tables.DecomposeTables | layout.py:298-326 | the decomposition produces the specified final regions and requests |
| Export.NumDigits | layout.py:338-339 | a count has at least one digit |
| Export.Exportable | layout.py:348-350 | (definition) a crop is taken only for a positive-width, positive-height scaled rectangle; used by ExportedNamesExact |
| Export.RegionFileName | layout.py:378-380 | (definition) `{page}_{padded position}_{code}.png`; stated by RegionFileNameSplit and RegionFileNameInjective |
| Export.ExportName | layout.py:374-380 | a cell keeps its own file name; a whole region gets a name unless its label is `a` |
| Export.ExportedNames | layout.py:341-383 | (definition) the names written for the page in region order, or failure; stated by ExportedNamesExact |
| Export.ExportedNamesExact | layout.py:341-383 | export fails exactly when a valid region has no name; otherwise it names every valid region and only those |
| Export.ExportFailsIff | layout.py:341-380 | export fails exactly when some valid region has no name |
| Export.ExportedNamesCover | layout.py:348-380 | every region that passes the validity filter is named |
| Export.ExportedNamesFrom | layout.py:348-380 | every name belongs to a region that passes the validity filter |
| Export.FailureIsFinal | layout.py:341-383 | once a prefix fails, the whole export fails |
| Export.ExportRegionNames | layout.py:338-383 | the export loop names the regions with the page's digit count |
| Export.CodeHasNoUnderscore | layout.py:379-380 | a label code with `.png` contains no underscore |
| Export.RegionFileNameSplit | layout.py:378-380 | a region file name splits at `_` into page, padded position and code with `.png` |
| Export.RegionFileNameInjective | layout.py:378-380 | on one page, equal region file names mean equal positions and codes |
| Export.RegionNameIsNotCellName | layout.py:374-380 | a region file name never equals a cell file name |
| Export.PaddedPositionOrder | layout.py:378 | padded positions sort lexicographically as the positions sort numerically |
| Sheet.IsCellEmptyIff | markdown.py:33-38 | a cell is empty exactly when it has no value or is a whitespace-only string |
| Sheet.IsCellEmpty | markdown.py:33-38 | (definition) `None` or a string that strips to nothing; stated by IsCellEmptyIff |
| Sheet.FormatLabelValue | markdown.py:105-109 | numbers are shown bare, everything else in double quotes |
| Sheet.IntLabelUnquoted | markdown.py:105-109 | a number's label never equals a string's label |
| Sheet.NeighborsAlong | markdown.py:46-50 | the neighbours listed are exactly the non-empty in-grid cells one direction away |
| Sheet.Neighbors | markdown.py:46-50 | neighbours are exactly the 4-adjacent non-empty cells |
| Sheet.Component | markdown.py:41-81 | a component holds only cells of the grid |
| Sheet.ReachableStep | markdown.py:60-66 | reachability extends by one neighbour |
| Sheet.ReachableSelf | markdown.py:56-58 | a non-empty cell reaches itself |
| Sheet.Reverse | markdown.py:46-50 | reversal inverts a path |
| Sheet.ReachableSymmetric | markdown.py:46-50 | reachability is symmetric |
| Sheet.ReachableTransitive | markdown.py:60-66 | reachability is transitive |
| Sheet.PathStaysInside | markdown.py:46-66 | a path starting in a neighbour-closed set stays in it |
| Sheet.ClosedHoldsComponent | markdown.py:46-66 | a neighbour-closed set holds the component of each member |
| Sheet.ComponentClosed | markdown.py:46-66 | a component is closed under 4-neighbours and holds only non-empty cells |
| Sheet.ComponentOfMember | markdown.py:41-81 | every member of a component has the same component |
| Sheet.ComponentHoldsSelf | markdown.py:56 | a non-empty cell is in its own component |
| Sheet.RowCells | markdown.py:74 | the cells of one row, left to right |
| Sheet.GridList | markdown.py:73-74 | the grid's cells number height times width |
| Sheet.GridListMembers | markdown.py:73-75 | the row-major listing holds exactly the grid's cells, sorted row-major |
| Sheet.FilterIn | markdown.py:115 | filtering keeps exactly the listed members of the set |
| Sheet.FilterInSorted | markdown.py:115 | filtering keeps row-major order |
| Sheet.RowMajor | markdown.py:115 | a set's in-grid cells, listed in row-major order |
| Sheet.SortedDistinct | markdown.py:73-74 | a row-major listing has no repeated cell |
| Sheet.SortedOnce | markdown.py:73-74 | a row-major listing holds each cell at most once |
| Bodies.UnseenMonotone | markdown.py:58-64 | marking a cell visited never increases the unvisited count |
| Bodies.UnseenDrops | markdown.py:63-64 | marking an unvisited grid cell decreases the unvisited count |
| Bodies.InGridListed | markdown.py:73-74 | every in-grid cell is in the grid listing |
| Bodies.VisitNeighbors | markdown.py:62-66 | visiting a cell adds exactly its unvisited non-empty neighbours to body, visited set and queue, settling the cell |
| Bodies.FloodFill | markdown.py:52-68 | the fill is empty for a visited or empty start; otherwise it holds the start, only cells reachable from it, all of them settled, and is added to the visited set |
| Bodies.UnionMembers | markdown.py:70-81 | each body lies in the union of bodies, and the union holds nothing else |
| Bodies.NotInBoth | markdown.py:63 | a cell of one of two disjoint sets is not in the other |
| Bodies.ClosedStep | markdown.py:46-66 | a neighbour-closed set holds the non-empty neighbours of its members |
| Bodies.FilledBodyIsComponent | markdown.py:52-68 | a completed fill is the start's whole component, and the visited set stays neighbour-closed |
| Bodies.AddCovering | markdown.py:77-79 | adding a non-empty body keeps the bodies covering the visited set |
| Bodies.AddComponent | markdown.py:77-79 | adding a component keeps every body a component |
| Bodies.AddDisjoint | markdown.py:77-79 | adding a body disjoint from the rest keeps the bodies pairwise disjoint |
| Bodies.AddBody | markdown.py:76-79 | adding a completed fill keeps the bodies a partition of the visited cells |
| Bodies.ScanCell | markdown.py:75-79 | scanning one cell keeps the partition and leaves a non-empty cell visited |
| Bodies.ScanRow | markdown.py:74-79 | scanning one row leaves every non-empty cell of it visited |
| Bodies.ContinuousBodies | markdown.py:41-81 | the bodies are non-empty, pairwise disjoint connected components of non-empty cells, and every non-empty cell lies in one |
| Grouping.KeyAlongDetermine | markdown.py:89-100 | a cell is determined by its line and its place along the line |
| Grouping.LineFirsts | markdown.py:87-101 | the values are exactly the body's edge cells, each filed under its own line |
| Grouping.FindEdgeCells | markdown.py:83-103 | the result holds exactly the edge cells of the bodies: per row the minimum-column cell, per column the minimum-row cell |
| Grouping.OnLine | markdown.py:114-118 | a line's group is no longer than the body |
| Grouping.Picked | markdown.py:121-128 | no more cells are picked than listed |
| Grouping.KeyClassHas | markdown.py:116-118 | every cell is in its own line's group |
| Grouping.FirstKeysMembers | markdown.py:116-117 | a line is recorded exactly when the body touches it |
| Grouping.OnLineAround | markdown.py:118 | a line's group grows by the next cell on that line |
| Grouping.EmittedPicked | markdown.py:123-128 | walking the groups in first-seen order emits what the direct filter picks |
| Grouping.GroupedSnoc | markdown.py:115-118 | filing one more cell keeps the grouping invariant |
| Grouping.GroupByLine | markdown.py:114-118 | the groups are each line's cells in body order, keyed in first-seen order |
| Grouping.LaterKey | markdown.py:123-128 | some recorded line lies beyond a line exactly when the body has a cell beyond it |
| Grouping.FindUniqueCells | markdown.py:111-151 | the result is the cells alone on their line with a later line, in first-seen line order |
| Grouping.OnLineSorted | markdown.py:114-118 | a line's group keeps row-major order |
| Grouping.PickedMembers | markdown.py:121-128 | the picked cells are exactly the listed cells that qualify |
| Grouping.QualifiesIff | markdown.py:123-128 | a cell qualifies exactly when it is the only body cell on its line and some body cell lies on a later line |
| Grouping.UniqueCellsMeaning | markdown.py:111-151 | the unique cells are exactly the body cells alone on their line with a later line in the body |
| Labelling.Labels | markdown.py:166-198 | each label is the formatted value of its cell |
| Labelling.UniqueCells | markdown.py:161-176 | (definition) the body's unique cells on the line, sorted nearest first; stated by UniqueCellsOrder and UniqueCellsEmpty |
| Labelling.RegularCells | markdown.py:179-198 | (definition) the edge cells before the cell on its line, sorted nearest first; stated by RegularCellsOrder and RegularCellsEmpty |
| Labelling.XCells | markdown.py:161-187 | (definition) the cells behind `x_labels`: the unique leftmost cells nearest first, then the left cells earlier in the row nearest first; stated by CellsOfLabelsInGrid and CellComponents |
| Labelling.YCells | markdown.py:162-198 | (definition) the cells behind `y_labels`: the unique topmost cells nearest first, then the top cells higher in the column nearest first; stated by CellsOfLabelsInGrid and CellComponents |
| Labelling.EdgeCellsOf | markdown.py:83-103 | (definition) the cells first on their line within their own component; used through EdgesOfBodies |
| Labelling.RecordAt | markdown.py:227-234 | (definition) the record the label assembler makes for one occupied cell; used through VisitCell |
| Labelling.SheetRecords | markdown.py:209-236 | (definition) the records of the cells visited row by row; stated by SheetRecordsMeaning and ProcessSheet |
| Labelling.UniqueCellsOrder | markdown.py:161-176 | the unique cells are exactly the body's unique cells, nearest to the cell first |
| Labelling.RegularCellsOrder | markdown.py:179-198 | regular label cells are exactly the edge cells before the cell on its line, nearest first |
| Labelling.NearestFirst | markdown.py:179-182 | a stable sort by distance over cells of one line puts nearer cells first |
| Labelling.CellsOfLabelsInGrid | markdown.py:166-198 | every label cell lies in the grid |
| Labelling.CellComponents | markdown.py:153-207 | no record exactly when both label lists are empty; a record carries the cell's value, and its `x_labels` and `y_labels` are the formatted labels of XCells and YCells joined with `" OR "`, or `"None"` when there are none |
| Labelling.UniqueCellsEmpty | markdown.py:165-172 | no unique cells exactly when no body cell qualifies |
| Labelling.RegularCellsEmpty | markdown.py:183-194 | no regular label cells exactly when no edge cell precedes the cell on its line |
| Labelling.NoRecordIff | markdown.py:200-207 | no record exactly when there is no unique leftmost or topmost cell and no left or top edge cell before the cell |
| Labelling.SortedUniqueCells | markdown.py:161-176 | the sorted unique cells are the specified list |
| Labelling.GetCellComponents | markdown.py:153-207 | the method computes the specified record |
| Labelling.FileBody | markdown.py:216-218 | filing a body maps each of its cells to it and leaves the rest |
| Labelling.CellToBody | markdown.py:215-218 | each covered cell maps to the last body holding it |
| Labelling.CellsInGrid | markdown.py:43-44 | the grid's cells are exactly the in-grid coordinates |
| Labelling.ComponentMemberOccupied | markdown.py:76 | a cell in its own component is non-empty |
| Labelling.EdgesOfBodies | markdown.py:221-222 | for the sheet's bodies, the edge cells found are the edge cells of the components |
| Labelling.OwnersAreComponents | markdown.py:212-218 | every non-empty cell maps to its own component |
| Labelling.SheetArgs | markdown.py:229-232 | every non-empty cell meets the label assembler's requirements |
| Labelling.RecordsOfMembers | markdown.py:225-234 | the records of a listing are exactly the records of its labelled non-empty cells |
| Labelling.SheetRecordsMeaning | markdown.py:209-236 | the sheet's records are exactly the records of its labelled non-empty cells, each carrying a non-empty value |
| Labelling.RecordsSnoc | markdown.py:233-234 | one more cell adds its record, if any, at the end |
| Labelling.VisitCell | markdown.py:227-234 | visiting a cell yields its record when it is non-empty, nothing otherwise |
| Labelling.SheetTables | markdown.py:212-222 | the lookup map sends each non-empty cell to its component, and the left and top sets are the edge cells |
| Labelling.ProcessRow | markdown.py:226-234 | one row appends its cells' records in column order |
| Labelling.ProcessSheet | markdown.py:209-236 | the records appear in row-major order, at most one per non-empty cell |
| MarkdownTable.OccurrencesAppend | markdown.py:351-352 | character counts add over concatenation |
| MarkdownTable.OccurrencesAbsent | markdown.py:351 | an absent character counts zero |
| MarkdownTable.OccurrencesRepeat | markdown.py:352 | a repeated string multiplies its count |
| MarkdownTable.OccurrencesJoin | markdown.py:346-351 | joining separator-free parts counts the separator once per gap |
| MarkdownTable.MaxCells | markdown.py:345 | the column count bounds every row and is reached by one |
| MarkdownTable.HeaderLine | markdown.py:346-347 | (definition) a row of max-cells empty cells; stated by HeaderPipes |
| MarkdownTable.SeparatorLine | markdown.py:347 | (definition) a row of max-cells `---` cells; stated by HeaderPipes |
| MarkdownTable.RowLine | markdown.py:350-352 | (definition) the stripped cells padded with empty cells to max-cells; stated by RowPipes and EmptyRowPipes |
| MarkdownTable.StripAll | markdown.py:351 | one stripped text per cell |
| MarkdownTable.TableText | markdown.py:339-355 | the text is empty exactly for a table without rows |
| MarkdownTable.RowLinesSnoc | markdown.py:349-353 | appending the next row's line extends the text |
| MarkdownTable.ConvertTable | markdown.py:339-355 | the loop builds the specified text |
| MarkdownTable.StripKeepsOut | markdown.py:351 | stripping introduces no new character |
| MarkdownTable.FillerPipes | markdown.py:346-347 | a line of n filler cells has n+1 pipes |
| MarkdownTable.HeaderPipes | markdown.py:346-347 | header and separator rows have max-cells+1 pipes |
| MarkdownTable.RowPipes | markdown.py:350-352 | a row of 1 to n pipe-free cells padded to n has n+1 pipes |
| MarkdownTable.PipesJoin | markdown.py:351 | joining k pipe-free parts adds k-1 pipes |
| MarkdownTable.PipesRepeat | markdown.py:352 | k padding cells add k pipes |
| MarkdownTable.Occurrences4 | markdown.py:351-352 | character counts add over four parts |
| MarkdownTable.PipeLiterals | markdown.py:346-352 | each literal fragment holds one pipe |
| MarkdownTable.StripAllPipeFree | markdown.py:351 | pipe-free cells stay pipe-free when stripped |
| MarkdownTable.TableRowsAligned | markdown.py:345-353 | every non-empty row and the header have max-cells+1 pipes |
| MarkdownTable.EmptyRowPipes | markdown.py:350-352 | a row without cells renders with max-cells+2 pipes |
| Strings.TrimStartWhitespace | start.py:183 | leading strip removes a whitespace prefix and nothing more |
| Strings.TrimEndWhitespace | start.py:183 | trailing strip removes a whitespace suffix and nothing more |
| Strings.Strip | start.py:183 | (definition) trailing strip after leading strip; stated by StripEmptyIff and StripFixedIff |
| Strings.TrimStart | start.py:183 | (definition) leading whitespace removed; stated by TrimStartWhitespace |
| Strings.TrimEnd | start.py:183 | (definition) trailing whitespace removed; stated by TrimEndWhitespace |
| Strings.EndsWith | start.py:172-175 | (definition) `str.endswith`: the last characters are the suffix; used through PdfEnding and IsValidPdfIff |
| Strings.StripEmptyIff | markdown.py:36 | a string strips to empty exactly when it is all whitespace |
| Strings.StripFixedIff | start.py:183 | strip leaves a string as it is exactly when it is empty or has no whitespace at either end |
| Strings.Split | start.py:183 | splitting yields at least one part, none holding the separator |
| Strings.SplitFirst | projectpackages/surya/input/load.py:14 | the first part is the prefix up to the first separator |
| Strings.SplitAfter | start.py:183 | a separator after a separator-free prefix splits it off |
| Strings.SplitNone | start.py:183 | a string without the separator is one part |
| Strings.SplitJoin | start.py:183-198 | splitting a join of separator-free parts recovers them |
| Strings.Join | markdown.py:346-351 | (definition) Python's `sep.join`; stated by SplitJoin and JoinSplit |
| Strings.JoinSplit | start.py:183 | joining the parts recovers the string |
| Strings.Lower | start.py:175 | lower-casing maps each character |
| Strings.Lines | start.py:182 | lines hold no newline |
| Strings.LinesWriteLines | start.py:181-200 | reading back written newline-free lines gives the lines |
| Strings.SplitWriteLines | start.py:195-200 | written lines split at newlines into the lines and an empty tail |
| Decimal.NatToString | start.py:103 | the decimal text is non-empty digits without a leading zero |
| Decimal.IntToString | layout.py:322 | a negative number is a minus sign and the digits of its magnitude |
| Decimal.IntToStringInjective | layout.py:322 | distinct integers have distinct texts |
| Decimal.ParseNatToString | layout.py:170-171 | reading back a number's text gives the number |
| Decimal.ParseDigits | layout.py:170-171 | (definition) `int(x)` of a digit string, the sort key of the page folders; stated by ParseNatToString and ParseZFill |
| Decimal.ParseZFill | layout.py:170-171 | zero padding keeps the digits readable as the same number |
| Decimal.ZFill | layout.py:378 | a text at least `width` long is unchanged; a shorter one is padded to exactly `width`, an unsigned one ending in the original text |
| Decimal.ZFillOrder | start.py:117 | padded to a common width, numbers sort lexicographically as they sort numerically |
| Decimal.DigitCountMonotone | start.py:103 | larger numbers have no fewer digits |
| Paths.RFind | start.py:172 | the last occurrence of a character, or -1 |
| Paths.BaseName | projectpackages/surya/input/load.py:14 | the base name is the path's last component |
| Paths.SplitExtRoot | start.py:172 | the root is a prefix of the name |
| Paths.PdfEnding | start.py:175 | a name whose lower-cased form ends in `.pdf` ends in a dot and the letters p, d, f in either case |
| Paths.IsValidPdfIff | start.py:170-175 | a name is valid exactly when its lower-cased form ends in `.pdf` and the name before those four characters ends in neither `_bw` nor `_text`, case-sensitively |
| Paths.IsValidPdf | start.py:170-175 | (definition) the suffix tests of `is_valid_pdf`; stated by IsValidPdfIff |
| IdentifierStatus.Put | start.py:185-193 | assignment keeps the dictionary well-formed |
| IdentifierStatus.PutMeaning | start.py:193 | the new identifier maps to its status, others are unchanged, existing keys keep their place and a new key goes last |
| IdentifierStatus.PutHas | start.py:193 | after assignment an identifier is present exactly when it was before or is the one assigned |
| IdentifierStatus.ParseNoComma | start.py:186-187 | a stripped line without a comma is an identifier with empty status |
| IdentifierStatus.ParseOneComma | start.py:184-185 | a stripped line with one comma is an identifier and its status |
| IdentifierStatus.ParseTwoCommas | start.py:183-187 | a line with two or more commas is ignored |
| IdentifierStatus.ParseLine | start.py:183-187 | (definition) one line's entry, or none; stated by ParseNoComma, ParseOneComma and ParseTwoCommas |
| IdentifierStatus.ParseLines | start.py:181-187 | one entry per line; each is ParseLine of its line by ParseLinesAt |
| IdentifierStatus.Collect | start.py:179-188 | the entries applied in order to an empty dictionary; a well-formed dictionary, stated by CollectHas, CollectLatest and CollectMeaning |
| IdentifierStatus.ReadLines | start.py:179-188 | the dictionary read from the file's lines is well formed; stated by ReadLinesMeaning |
| IdentifierStatus.ParseLinesAt | start.py:182-183 | each line yields its own entry |
| IdentifierStatus.CollectHas | start.py:182-187 | an identifier is read exactly when some line names it |
| IdentifierStatus.CollectLatest | start.py:185-187 | the last line naming an identifier gives its status |
| IdentifierStatus.CollectMeaning | start.py:182-187 | an identifier is present exactly when some line names it, with the status of the last such line |
| IdentifierStatus.ReadLinesMeaning | start.py:177-188 | the same, stated on the file's lines |
| IdentifierStatus.StatusOf | start.py:177-188 | reading gives a well-formed dictionary, empty for a missing file |
| IdentifierStatus.ReadIdentifierStatus | start.py:177-188 | the reading loop produces the specified dictionary |
| IdentifierStatus.EntryLines | start.py:196-200 | one formatted line per key, in key order |
| IdentifierStatus.FormatEntry | start.py:197-200 | (definition) `ident,stat`, or the bare identifier for an empty status; stated by ParseFormatEntry |
| IdentifierStatus.WriteStatuses | start.py:195-200 | (definition) the file text for a dictionary; stated by WriteReadRoundTrip |
| IdentifierStatus.WriteLinesSnoc | start.py:196-200 | writing one more line appends it with a newline |
| IdentifierStatus.WriteLinesPrefix | start.py:196-200 | writing a longer prefix appends the next line |
| IdentifierStatus.WriteEntries | start.py:195-200 | the writing loop produces the specified file contents |
| IdentifierStatus.UpdateIdentifierStatus | start.py:190-200 | the file becomes the written form of the previous dictionary with the identifier set |
| IdentifierStatus.ParseFormatEntry | start.py:183-200 | a written entry reads back as the identifier and its status; an empty status is written as the bare identifier |
| IdentifierStatus.ParseEntryLines | start.py:182-200 | the written lines read back as the entries in key order |
| IdentifierStatus.KeyedMap | start.py:185-187 | the rebuilt map's keys are the listed keys |
| IdentifierStatus.KeyedMapSame | start.py:185-187 | rebuilding over all of a map's keys gives the map |
| IdentifierStatus.KeyedMapAt | start.py:185-187 | the rebuilt map agrees with the original on listed keys |
| IdentifierStatus.CollectKeyed | start.py:182-187 | reading distinct entries in order rebuilds them in that order |
| IdentifierStatus.KeyedPut | start.py:185-187 | assigning the last distinct key extends the rebuilt dictionary |
| IdentifierStatus.WriteReadRoundTrip | start.py:177-200 | for clean identifiers and statuses, writing a dictionary and reading it back gives the same dictionary, order included |
| IdentifierStatus.UpdateReadBack | start.py:190-200 | after an update, reading the file gives the previous dictionary with the identifier set |
| Chunks.PagesToSplit | start.py:100 | the page count is capped at 16 |
| Chunks.NumChunks | start.py:101 | enough chunks to cover the pages, and no superfluous one |
| Chunks.CeilingDiv | start.py:101 | ceiling division covers the dividend and no more |
| Chunks.ChunkStart | start.py:112 | (definition) the first page of chunk i; stated by ChunksPartition |
| Chunks.ChunkEnd | start.py:113 | the page after chunk i is the next chunk's first page, capped at the page count |
| Chunks.ChunkName | start.py:117-118 | (definition) `chunk_{padded i+1}.pdf`; stated by ChunkNamesOrdered |
| Chunks.ChunkOf | start.py:111-113 | the chunk number of a page: it lies between that chunk's start and the next chunk's start |
| Chunks.ChunkFiles | start.py:111-121 | (definition) one chunk file per loop turn, in order; computed by WriteChunks, stated by ChunksPartition |
| Chunks.SplitPlan | start.py:98-124 | (definition) the chunk files in order; stated by ChunksPartition and SplitPdf |
| Chunks.MulMonotone | start.py:112-113 | multiplication by a natural is monotone |
| Chunks.InChunkIff | start.py:111-113 | a page is in chunk i exactly when it is in the document and its chunk number is i |
| Chunks.ChunksPartition | start.py:111-113 | the chunks are non-empty, contiguous, start at 0, end at the page count, and every page lies in exactly one |
| Chunks.SplitChunk | start.py:112-117 | one iteration computes the chunk's page range and padded name |
| Chunks.WriteChunks | start.py:111-121 | the loop produces the chunk files in order |
| Chunks.SplitPdf | start.py:98-124 | the chunk count and the chunk files are the specified plan |
| Chunks.ChunkNamesOrdered | start.py:103-117 | chunk file names sort lexicographically in chunk order |
| Chunks.ChunkPageRange | process_document.py:106-109 | the range has at most chunk-size pages, all below the page limit, and is empty when the start is at or past it |
| Chunks.ChunkRangesAgree | process_document.py:106-109 | for a chunk the driver issues, the processing range is that chunk's split range |
| Chunks.PageFolderReadBack | process_document.py:113-114 | a page folder is all digits, and reading it back gives the page number |
| Chunks.PageFolder | process_document.py:113-114 | (definition) the page number padded to four digits; stated by PageFolderReadBack and PageFoldersOrdered |
| Chunks.PageFoldersOrdered | process_document.py:113-114 | below 10000 pages, folder names sort lexicographically as pages sort numerically |
| Chunks.DigitsBelow | process_document.py:114 | a number below 10^w has at most w digits |
| BoundingBoxes.MinOf | process_document.py:27 | the minimum is a coordinate and bounds all coordinates from below |
| BoundingBoxes.MaxOf | process_document.py:27 | the maximum is a coordinate and bounds all coordinates from above |
| BoundingBoxes.XCoords | process_document.py:25 | the x coordinates of the points, in order |
| BoundingBoxes.YCoords | process_document.py:26 | the y coordinates of the points, in order |
| BoundingBoxes.PolygonToBbox | process_document.py:24-28 | a box exists exactly for a non-empty polygon; it is well-formed and holds every point |
| BoundingBoxes.PolygonBboxTight | process_document.py:25-27 | each edge passes through a point, and every box holding all points holds it |
| BoundingBoxes.BboxExtents | process_document.py:30-36 | height and width do not depend on the order of the corners and are the plain differences for a well-formed box |
| BoundingBoxes.PolygonBboxExtents | process_document.py:24-36 | the polygon box's height and width are the y and x extents |
| Ranges.Range | projectpackages/surya/input/load.py:30 | the integers from lo up to hi, in order |
| Ranges.RangeMembers | projectpackages/surya/input/load.py:30 | a number is in the range exactly when lo <= it < hi |
| PdfLoad.NameFromPath | projectpackages/surya/input/load.py:13-14 | the name is the base name up to its first dot, and holds neither dot nor slash |
| PdfLoad.StartPage | projectpackages/surya/input/load.py:21-24 | succeeds exactly when a truthy start page lies in the document, giving that page; a falsy one gives 0 |
| PdfLoad.LastPage | projectpackages/surya/input/load.py:26-28 | succeeds exactly when a truthy limit is not negative; then the end is the smaller of `start + limit` and the page count; without a limit it is the page count |
| PdfLoad.LoadPdf | projectpackages/surya/input/load.py:17-39 | a successful load gives one name per page index |
| PdfLoad.LoadPdfSucceedsIff | projectpackages/surya/input/load.py:21-28 | loading succeeds exactly when a truthy start page lies in the document and a truthy page limit is not negative |
| PdfLoad.LoadPdfSelection | projectpackages/surya/input/load.py:21-38 | the indices are consecutive from the start page and lie in the document; with a truthy limit there are `min(limit, pages left)` of them, without one they reach the end of the document; every name is the file's name |

## Left out

- The perception models (text detection, layout detection, ordering, table recognition, the word polygon detector) are not modelled. Their outputs are inputs to the model: `Regions.LayoutResult`, `Ordering.OrderBox`, `Tables.TableResult`.
- Image work is left out, because it runs in foreign imaging libraries: loading, colour conversion, cropping, resizing to 1000 pixels on the longest side, saving, drawing and page rasterisation. A failed resize is left out with it.
- Floating-point arithmetic is left out:
  - the raw/normal scale factors (`Export.ExportedNames` takes the already-scaled integer boxes);
  - `write_normalized_boxes`;
  - `shrink_bbox_horizontally`, which is also unused;
  - `str` of a float in `format_label_value`. `Sheet.Value` has no value, strings, integers, booleans, floats and other values; a float or other value is carried by its `str()` text (`Float(text)`, `Other(text)`). `Sheet.FormatLabelValue` shows integers, booleans and floats bare, since Python's `bool` is an `int`.
- Coordinates are integers. The `int()` truncations in consolidation rule A (layout.py:123) are therefore the identity. The other `int()` of the core, the folder sort key of layout.py:171, reads an all-digit folder name and is modelled by `Decimal.ParseDigits`.
- Python set iteration order is not modelled:
  - Where the result does not depend on it (`Grouping.LineFirsts`, `Labelling.FileBody`), the model takes cells in any order.
  - Where it does, it lists cells in row-major order: `find_unique_*`, the left/top cell lists, and `get_cell_components`' sort ties.
- The grid is assumed rectangular, since the source reads `len(data[0])` as the width of every row.
- `Bodies.ContinuousBodies` does not state the order of the bodies. The source's row-major scan yields them in row-major order of their first cell; no caller depends on that order.
- `Bodies.FloodFill` returns the enlarged visited set instead of mutating its argument.
- `Labelling.CellComponents` requires a non-empty body. `min()` over an empty body raises, and `process_sheet` never passes one.
- `Strings.Lower` folds ASCII letters only. Lines split at `'\n'` only; universal newline translation is left out.
- The whitespace set of `strip()` is a fixed table of code points.
- Paths use `/` as the only separator.
- A failed assertion in the PDF loader is a `Failure` value.
- Operations that need the document's length take the page count as a parameter. Opening the document is left out.
- `Chunks.SplitPdf` requires a chunk size of at least 1; Python raises on 0, and negative sizes are not modelled. Its second result, the chunk size echoed back, is left out.
- `Chunks.SplitPdf` does not model the chunk PDFs' page contents, only their page ranges and names.
- `Export.ExportName` makes a whole region labelled `a` a failure: the source would join its integer id into a path.
- `Tables.Decomposed` models recognition failure as all-or-nothing. A failure after some cells were appended keeps those cells in the source; the model does not capture that.
- Not modelled: the document-format converters (RTF, DOCX, e-mail, spreadsheet loading, HTML traversal), the Internet Archive download and polling, the dashboard, directory cleaning, the multiprocessing pool, `load_image` and `load_from_folder`, and the argument-parsing entry points.
