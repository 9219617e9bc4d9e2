# r.findtheriver: stream-pixel search and nearest-point selection

A Dafny model of the core of r.findtheriver, a GRASS raster module. Given a
raster of upstream accumulation areas and a query cell, it finds the "stream"
pixel nearest that cell. The model has two modules.

- `PointList` (point_list.c) holds the candidate container. It is a singly
  linked list of `PointNode` objects with `col`, `row` and `next` fields.
  `CreateList` builds a one-node list and `AppendPoint` walks to the tail and
  links a new node there. `FindNearestPoint` makes one pass with a running
  minimum and a strict `<`, so the first of several equidistant points wins.
  The C functions take only the head pointer. `AppendPoint` and
  `FindNearestPoint` also take the ghost sequence of the list's nodes, which its contract uses to describe the
  chain that head starts (`IsList`) and the coordinates it holds (`Points`).
- `FindTheRiver` (main.c) holds the search. `findStreamPixelsInWindow`
  clips a square window of half-width `(windowSize - 1) / 2` to the raster. It
  reads each window row once into one reused buffer. It tests each window cell
  and appends `(col, row)` to the list when the test passes, rows outer and
  columns inner, both ascending. Also modelled are the window-size and
  threshold checks of `main` and the computation `main` runs afterwards
  (`Run`): collect the candidates, then pick the nearest one.

Modelling decisions:

- **Raster.** The raster is a read-only `seq<seq<real>>` of DCELL values.
  `GetRasterRow` copies one row into the `array<real>` buffer and appends
  the row index to a ghost log of reads. `FindStreamPixelsInWindow` returns
  that log as a ghost, the sequence of rows it read.
- **Stream test.** The test `log10(v) - log10(centre) > threshold` is stated
  without logarithms as `v > centre * 10^threshold` (`ExceedsThreshold`).
  For a positive centre the two are equivalent in exact arithmetic. For `v <= 0`, C's `log10` gives
  -inf or NaN and the comparison is false. The rewritten test is also false
  there, because its right-hand side is positive.
- **Tested value.** The inner loop tests `tmpRow[currCol]`, the value in
  the query column of the current row, for every column. The model keeps this
  (`RowHits`). As a result, a window row contributes all of its window columns
  or none of them (`RowAllOrNothing`). The query cell's own row never
  contributes (`CentreRowExcluded`).
- **Distance.** Distances are squared integers (`Dist2`) in place of
  `sqrt(pow(..) + pow(..))`. The square root is monotone, so the minimum and the
  tie-break are unchanged.
- **Method split.** The C code has the clamping of the window bounds, the
  row loop and the column loop all inline in `findStreamPixelsInWindow`. The
  model gives each its own method (`WindowBounds`, `ScanWindow`, `ScanRow`),
  called in the same order.
- **Centre value.** The code does not check for a non-positive centre
  value: it takes `log10` of whatever is there. The model states positivity
  of the centre value as a precondition.

## Model

| member | source | states |
|---|---|---|
| `PointList.CreateList` | point_list.c:8-14 | the result is a fresh one-node list whose only point is exactly (col, row) and whose `next` is NULL |
| `PointList.AppendPoint` | point_list.c:16-26 | on a non-null list, the list becomes the old points followed by (col, row). Earlier points are unchanged and in order, and only the old tail's `next` is written. The returned node is the fresh new tail, with `next` NULL |
| `PointList.NearestIndex` | point_list.c:41-56 | the left-to-right running-minimum scan gives no index exactly for an empty list. Otherwise it gives a position whose distance is at most every element's and strictly below every earlier element's: the argmin, first on ties |
| `PointList.SingleCandidate` | point_list.c:44-51 | a one-element list yields that element whatever its distance, because the HUGE_VAL start is beaten by any distance |
| `PointList.FindNearestPoint` | point_list.c:41-56 | returns NULL exactly for the empty list, and otherwise the node at the first-nearest position of the list's points. It has no modifies clause, so the list is left unchanged |
| `FindTheRiver.NotStreamAgainstItself` | main.c:101-105 | a positive value never passes the log-difference test against itself |
| `FindTheRiver.ClipWindow` | main.c:71-80 | the clipped window never leaves [0, nrows-1] x [0, ncols-1] |
| `FindTheRiver.ClipWindowSpec` | main.c:71-80 | a row or column is inside the clipped window iff it is in the raster and within the half-width of the query cell. The window contains the query cell. When a dimension is not clipped, that dimension spans exactly `windowSize` cells, centred on the query cell |
| `FindTheRiver.WindowBounds` | main.c:71-80 | the four clamped bounds computed step by step are exactly the clipped window |
| `FindTheRiver.GetRasterRow` | main.c:85-88 | the reused row buffer afterwards holds exactly the requested raster row, and the read is appended to the log of rows read |
| `FindTheRiver.RowHitsMembers` | main.c:89-112 | over columns [minCol, hiCol) of one row, a cell is appended iff it is on that row, in that column range, and the row's query-column value passes the test |
| `FindTheRiver.RowHitsOrdered` | main.c:89-112 | one row's appended cells are in ascending column order |
| `FindTheRiver.WindowHitsMembers` | main.c:84-114 | after rows [minRow, hiRow), a cell is in the list iff its row is in that range, its column in the window, and its tested value passes |
| `FindTheRiver.WindowHitsOrdered` | main.c:84-114 | after any number of rows, the list is in row-major order |
| `FindTheRiver.StreamPixelsMembers` | main.c:84-113 | a cell is a candidate iff it is inside the raster, within the half-width of the query cell in both directions, and its row's query-column value passes against the centre value |
| `FindTheRiver.StreamPixelsOrdered` | main.c:84-113 | candidates are strictly ordered by (row, col) ascending, in discovery order, so none appears twice |
| `FindTheRiver.RowAllOrNothing` | main.c:89-105 | because every column is tested with `tmpRow[currCol]`, each window row contributes either all its window columns or none |
| `FindTheRiver.CentreRowExcluded` | main.c:92-105 | with a positive centre value, no candidate lies on the query cell's row |
| `FindTheRiver.NoStreamPixelsIff` | main.c:105-116 | the candidate list is empty iff no window cell passes the test |
| `FindTheRiver.AddStreamPixel` | main.c:106-111 | the first passing cell creates the list and later ones are appended at its tail. Either way, the list becomes the old points plus (col, row) |
| `FindTheRiver.ScanWindow` | main.c:84-114 | the outer row loop leaves the list holding exactly the hits of every window row, rows ascending, and reads each window row once in ascending order |
| `FindTheRiver.ScanRow` | main.c:89-113 | the inner column loop appends exactly that row's hits, in column order, to the list |
| `FindTheRiver.FindStreamPixelsInWindow` | main.c:41-117 | the returned list holds exactly the candidates, in discovery order, and is NULL iff there are none. The rows read are the centre row, then each window row once, ascending (`maxRow - minRow + 1` window reads) |
| `FindTheRiver.AcceptedWindowSize` | main.c:227-239 | a user-supplied size is accepted iff it is odd and at least 3, and kept as given. An inferred size is accepted iff it is at least 2, and then it is raised by at most one to be odd. Every accepted size is odd and at least 3 |
| `FindTheRiver.ResolveWindowSize` | main.c:227-239 | the step-by-step window-size handling of main (bump an even inferred size, then refuse below 2 or even) yields exactly `AcceptedWindowSize` |
| `FindTheRiver.AcceptedThreshold` | main.c:243-263 | a threshold, supplied or inferred, is accepted iff it is at least 1, and is then kept unchanged |
| `FindTheRiver.ResolveThreshold` | main.c:243-263 | the threshold handling of main yields exactly `AcceptedThreshold` |
| `FindTheRiver.Run` | main.c:227-320 | an invalid window size or threshold ends in the usage error. Otherwise the outcome is "nothing found" when the candidate list is empty, or the first-nearest candidate to the query cell |

## Left out

- GRASS set-up and I/O in `main`: option and flag definitions, `G_parser`, the map lookup, header reads, opening and closing the raster, and the messages printed to stderr and stdout. These are environment glue. `Run` returns what `main` would print, as an `Outcome`.
- Coordinate handling: parsing easting and northing, converting between map coordinates and row/column indices, and the separator option. These are calls into the GRASS library. `Run` takes the query row and column as integers and returns a cell, not map coordinates.
- The inferred window size `THRESHOLD_DISTANCE / cellRes` and the inferred threshold computed from `log10` of the raster range. Both are floating-point computations; the model takes their truncated integer results as inputs (`inferred`), and parses no `atoi` text.
- The CELL/FCELL switch. The collector asserts the DCELL type, so only `real` cells are modelled.
- Row-read failure (`G_fatal_error` when `G_get_raster_row` fails). `GetRasterRow` is total on in-bounds rows.
- `printList` (output only), and `destroyList` and `G_free` (manual memory release).
- FindTheRiver.FindStreamPixelsInWindow: requires the query cell inside the raster and a positive centre value. The C code reads out of bounds for a query cell outside the region and gets -inf or NaN logarithms for a non-positive centre, and the model does not describe either.
- FindTheRiver.Run: when the window size and the threshold are both accepted, requires the same query-cell conditions as `FindStreamPixelsInWindow`, for the same reasons. On the usage-error path it requires nothing, as `main` exits there before it reads the raster.
- FindTheRiver.ExceedsThreshold: the test is exact. The C code compares rounded `log10` doubles, which can disagree with it when `v` equals or nearly equals `centre * 10^threshold` (centre 13, value 130, threshold 1: C's difference rounds to just above 1 and accepts, the model rejects).
- Null (NaN) DCELL values are not represented: raster cells are `real`. In C, a null neighbour fails the test, and a null centre value makes every test fail.
- PointList.FindNearestPoint: compares exact squared integer distances. The C code compares double-precision square roots, which can round two different large distances to the same value. This only matters for coordinates far beyond any raster size.
- 32-bit `int` overflow in the index arithmetic (`currCol + windowOffset` and similar) and in `dx*dx + dy*dy` is not modelled. Integers are unbounded here.
