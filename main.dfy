/**
 * The stream-pixel search of main.c: clip a square window around the query
 * cell to the raster, scan it row by row through one reused row buffer,
 * collect every cell that passes the log-difference test into a point list,
 * then pick the candidate nearest the query cell. The validation of the
 * window size and threshold that precedes the search is here too.
 *
 * The raster is a read-only grid of DCELL values, `raster[row][col]`.
 */
module FindTheRiver {
  import opened Wrappers
  import opened PointList

  /** `raster` has `nrows` rows of `ncols` values each. */
  predicate IsGrid(raster: seq<seq<real>>, nrows: int, ncols: int)
  {
    |raster| == nrows && forall r :: 0 <= r < |raster| ==> |raster[r]| == ncols
  }

  predicate InRange(x: int, lo: int, hi: int)
  {
    lo <= x <= hi
  }

  function Pow10(n: nat): (p: int)
    ensures p >= 1
  {
    if n == 0 then 1 else 10 * Pow10(n - 1)
  }

  /**
   * The stream test `log10(v) - log10(centre) > threshold`. For a positive
   * centre it is equivalent in exact arithmetic to `v > centre * 10^threshold`,
   * which needs no logarithm. For `v <= 0` the source's log10 gives -inf or
   * NaN and the comparison is false; so is this one, as the right-hand side
   * is positive. The source compares rounded doubles, which can disagree
   * when `v` is at or next to `centre * 10^threshold`.
   */
  predicate ExceedsThreshold(v: real, centre: real, threshold: nat)
  {
    v > centre * Pow10(threshold) as real
  }

  /** A positive value never passes the test against itself. */
  lemma NotStreamAgainstItself(c: real, threshold: nat)
    requires c > 0.0
    ensures !ExceedsThreshold(c, c, threshold)
  {
    var p := Pow10(threshold) as real;
    assert p >= 1.0;
    assert c * p - c == c * (p - 1.0);
    assert c * (p - 1.0) >= 0.0;
  }

  /** The clipped window, all bounds inclusive. */
  datatype Window = Window(minRow: int, maxRow: int, minCol: int, maxCol: int)

  /**
   * Half-width of a window of `windowSize` cells, `(windowSize - 1) / 2`
   * with C's division, which truncates toward zero (Dafny's `/` is
   * Euclidean, so the two differ for windowSize <= 0 and even).
   */
  function Offset(windowSize: int): (off: int)
    ensures windowSize >= 1 ==> 2 * off <= windowSize - 1 < 2 * off + 2
    ensures windowSize <= 1 ==> 2 * off - 2 < windowSize - 1 <= 2 * off
  {
    if windowSize >= 1 then (windowSize - 1) / 2 else -((1 - windowSize) / 2)
  }

  /**
   * The window of half-width Offset(windowSize) around (currRow, currCol),
   * clipped to rows [0, nrowsLessOne] and columns [0, ncolsLessOne]; it
   * never leaves the raster.
   */
  function ClipWindow(windowSize: int, nrowsLessOne: int, ncolsLessOne: int,
                      currRow: int, currCol: int): (w: Window)
    ensures 0 <= w.minRow && w.maxRow <= nrowsLessOne
    ensures 0 <= w.minCol && w.maxCol <= ncolsLessOne
  {
    var off := Offset(windowSize);
    Window(if currRow - off < 0 then 0 else currRow - off,
           if currRow + off > nrowsLessOne then nrowsLessOne else currRow + off,
           if currCol - off < 0 then 0 else currCol - off,
           if currCol + off > ncolsLessOne then ncolsLessOne else currCol + off)
  }

  /**
   * The clipped window is the unclipped one intersected with the raster;
   * it contains the query cell; and where no clipping happens it spans
   * exactly `windowSize` cells centred on the query cell.
   */
  lemma ClipWindowSpec(windowSize: int, nrowsLessOne: int, ncolsLessOne: int, currRow: int, currCol: int)
    ensures var w := ClipWindow(windowSize, nrowsLessOne, ncolsLessOne, currRow, currCol);
      var off := Offset(windowSize);
      && (forall row :: InRange(row, w.minRow, w.maxRow) <==>
            InRange(row, 0, nrowsLessOne) && InRange(row, currRow - off, currRow + off))
      && (forall col :: InRange(col, w.minCol, w.maxCol) <==>
            InRange(col, 0, ncolsLessOne) && InRange(col, currCol - off, currCol + off))
      && (windowSize >= 1 && InRange(currRow, 0, nrowsLessOne) && InRange(currCol, 0, ncolsLessOne) ==>
            InRange(currRow, w.minRow, w.maxRow) && InRange(currCol, w.minCol, w.maxCol))
      && (windowSize % 2 == 1 && 0 <= currRow - off && currRow + off <= nrowsLessOne ==>
            w.maxRow - w.minRow + 1 == windowSize && currRow - w.minRow == w.maxRow - currRow)
      && (windowSize % 2 == 1 && 0 <= currCol - off && currCol + off <= ncolsLessOne ==>
            w.maxCol - w.minCol + 1 == windowSize && currCol - w.minCol == w.maxCol - currCol)
  {
  }

  /**
   * What the inner loop appends for one window row, over columns
   * [minCol, hiCol): the cell (col, row) whenever the value the loop tests
   * passes. That value is `rowValues[currCol]`, the row's cell in the
   * query column, for every col, exactly as main.c reads `tmpRow[currCol]`.
   */
  function RowHits(rowValues: seq<real>, row: int, minCol: int, hiCol: int,
                   currCol: int, centre: real, threshold: nat): seq<Point>
    requires 0 <= currCol < |rowValues|
    decreases hiCol - minCol
  {
    if hiCol <= minCol then []
    else
      RowHits(rowValues, row, minCol, hiCol - 1, currCol, centre, threshold)
      + (if ExceedsThreshold(rowValues[currCol], centre, threshold) then [Point(hiCol - 1, row)] else [])
  }

  /** What the scan has appended once the rows [w.minRow, hiRow) are done. */
  function WindowHits(raster: seq<seq<real>>, w: Window, hiRow: int,
                      currCol: int, centre: real, threshold: nat): seq<Point>
    requires 0 <= w.minRow && (hiRow <= w.minRow || hiRow <= |raster|)
    requires 0 <= currCol && forall r :: 0 <= r < |raster| ==> currCol < |raster[r]|
    decreases hiRow - w.minRow
  {
    if hiRow <= w.minRow then []
    else
      WindowHits(raster, w, hiRow - 1, currCol, centre, threshold)
      + RowHits(raster[hiRow - 1], hiRow - 1, w.minCol, w.maxCol + 1, currCol, centre, threshold)
  }

  /**
   * The whole candidate list findStreamPixelsInWindow builds, in discovery
   * order; the reference value is the query cell's own.
   */
  function StreamPixels(raster: seq<seq<real>>, nrowsLessOne: int, ncolsLessOne: int,
                        windowSize: int, threshold: nat, currRow: int, currCol: int): seq<Point>
    requires IsGrid(raster, nrowsLessOne + 1, ncolsLessOne + 1)
    requires InRange(currRow, 0, nrowsLessOne) && InRange(currCol, 0, ncolsLessOne)
  {
    var w := ClipWindow(windowSize, nrowsLessOne, ncolsLessOne, currRow, currCol);
    WindowHits(raster, w, w.maxRow + 1, currCol, raster[currRow][currCol], threshold)
  }

  /** The rows lo, lo + 1, ..., hi - 1. */
  function RowSpan(lo: int, hi: int): (s: seq<int>)
    ensures |s| == if hi <= lo then 0 else hi - lo
    ensures forall i :: 0 <= i < |s| ==> s[i] == lo + i
    decreases hi - lo
  {
    if hi <= lo then [] else RowSpan(lo, hi - 1) + [hi - 1]
  }

  /** `p` comes before `q` in row-major order: rows ascending, then columns ascending. */
  predicate RowMajorBefore(p: Point, q: Point)
  {
    p.row < q.row || (p.row == q.row && p.col < q.col)
  }

  predicate RowMajorOrdered(ps: seq<Point>)
  {
    forall i, j :: 0 <= i < j < |ps| ==> RowMajorBefore(ps[i], ps[j])
  }

  lemma OrderedAppend(a: seq<Point>, b: seq<Point>)
    requires RowMajorOrdered(a) && RowMajorOrdered(b)
    requires forall x, y :: x in a && y in b ==> RowMajorBefore(x, y)
    ensures RowMajorOrdered(a + b)
  {
    forall i, j | 0 <= i < j < |a + b|
      ensures RowMajorBefore((a + b)[i], (a + b)[j])
    {
      if j < |a| {
        assert (a + b)[i] == a[i] && (a + b)[j] == a[j];
      } else if i >= |a| {
        assert (a + b)[i] == b[i - |a|] && (a + b)[j] == b[j - |a|];
      } else {
        assert (a + b)[i] == a[i] && (a + b)[j] == b[j - |a|];
      }
    }
  }

  /** A row contributes the cells of [minCol, hiCol) on that row, all of them or none. */
  lemma {:induction false} RowHitsMembers(rowValues: seq<real>, row: int, minCol: int, hiCol: int,
                                          currCol: int, centre: real, threshold: nat, p: Point)
    requires 0 <= currCol < |rowValues|
    ensures p in RowHits(rowValues, row, minCol, hiCol, currCol, centre, threshold) <==>
      p.row == row && minCol <= p.col < hiCol && ExceedsThreshold(rowValues[currCol], centre, threshold)
    decreases hiCol - minCol
  {
    if hiCol > minCol {
      RowHitsMembers(rowValues, row, minCol, hiCol - 1, currCol, centre, threshold, p);
    }
  }

  /** A row's hits come in ascending column order. */
  lemma {:induction false} RowHitsOrdered(rowValues: seq<real>, row: int, minCol: int, hiCol: int,
                                          currCol: int, centre: real, threshold: nat)
    requires 0 <= currCol < |rowValues|
    ensures RowMajorOrdered(RowHits(rowValues, row, minCol, hiCol, currCol, centre, threshold))
    decreases hiCol - minCol
  {
    if hiCol > minCol {
      var prefix := RowHits(rowValues, row, minCol, hiCol - 1, currCol, centre, threshold);
      var last := if ExceedsThreshold(rowValues[currCol], centre, threshold) then [Point(hiCol - 1, row)] else [];
      RowHitsOrdered(rowValues, row, minCol, hiCol - 1, currCol, centre, threshold);
      forall x, y | x in prefix && y in last
        ensures RowMajorBefore(x, y)
      {
        RowHitsMembers(rowValues, row, minCol, hiCol - 1, currCol, centre, threshold, x);
      }
      OrderedAppend(prefix, last);
    }
  }

  /** The hits of rows [w.minRow, hiRow) are exactly the passing cells of those rows' window columns. */
  lemma {:induction false} WindowHitsMembers(raster: seq<seq<real>>, w: Window, hiRow: int,
                                             currCol: int, centre: real, threshold: nat, p: Point)
    requires 0 <= w.minRow && (hiRow <= w.minRow || hiRow <= |raster|)
    requires 0 <= currCol && forall r :: 0 <= r < |raster| ==> currCol < |raster[r]|
    ensures p in WindowHits(raster, w, hiRow, currCol, centre, threshold) <==>
      w.minRow <= p.row < hiRow && w.minCol <= p.col <= w.maxCol
      && ExceedsThreshold(raster[p.row][currCol], centre, threshold)
    decreases hiRow - w.minRow
  {
    if hiRow > w.minRow {
      WindowHitsMembers(raster, w, hiRow - 1, currCol, centre, threshold, p);
      RowHitsMembers(raster[hiRow - 1], hiRow - 1, w.minCol, w.maxCol + 1, currCol, centre, threshold, p);
    }
  }

  /** The hits of rows [w.minRow, hiRow) are in row-major order. */
  lemma {:induction false} WindowHitsOrdered(raster: seq<seq<real>>, w: Window, hiRow: int,
                                             currCol: int, centre: real, threshold: nat)
    requires 0 <= w.minRow && (hiRow <= w.minRow || hiRow <= |raster|)
    requires 0 <= currCol && forall r :: 0 <= r < |raster| ==> currCol < |raster[r]|
    ensures RowMajorOrdered(WindowHits(raster, w, hiRow, currCol, centre, threshold))
    decreases hiRow - w.minRow
  {
    if hiRow > w.minRow {
      var prefix := WindowHits(raster, w, hiRow - 1, currCol, centre, threshold);
      var last := RowHits(raster[hiRow - 1], hiRow - 1, w.minCol, w.maxCol + 1, currCol, centre, threshold);
      WindowHitsOrdered(raster, w, hiRow - 1, currCol, centre, threshold);
      RowHitsOrdered(raster[hiRow - 1], hiRow - 1, w.minCol, w.maxCol + 1, currCol, centre, threshold);
      forall x, y | x in prefix && y in last
        ensures RowMajorBefore(x, y)
      {
        WindowHitsMembers(raster, w, hiRow - 1, currCol, centre, threshold, x);
        RowHitsMembers(raster[hiRow - 1], hiRow - 1, w.minCol, w.maxCol + 1, currCol, centre, threshold, y);
        assert x.row < hiRow - 1 == y.row;
      }
      OrderedAppend(prefix, last);
    }
  }

  /**
   * A cell is a candidate exactly when it lies in the raster, within
   * Offset(windowSize) rows and columns of the query cell, and the value
   * tested for it, the one in its row's query column, passes against the
   * centre value.
   */
  lemma StreamPixelsMembers(raster: seq<seq<real>>, nrowsLessOne: int, ncolsLessOne: int,
                            windowSize: int, threshold: nat, currRow: int, currCol: int, p: Point)
    requires IsGrid(raster, nrowsLessOne + 1, ncolsLessOne + 1)
    requires InRange(currRow, 0, nrowsLessOne) && InRange(currCol, 0, ncolsLessOne)
    ensures p in StreamPixels(raster, nrowsLessOne, ncolsLessOne, windowSize, threshold, currRow, currCol) <==>
      InRange(p.row, 0, nrowsLessOne) && InRange(p.col, 0, ncolsLessOne)
      && InRange(p.row, currRow - Offset(windowSize), currRow + Offset(windowSize))
      && InRange(p.col, currCol - Offset(windowSize), currCol + Offset(windowSize))
      && ExceedsThreshold(raster[p.row][currCol], raster[currRow][currCol], threshold)
  {
    var w := ClipWindow(windowSize, nrowsLessOne, ncolsLessOne, currRow, currCol);
    ClipWindowSpec(windowSize, nrowsLessOne, ncolsLessOne, currRow, currCol);
    WindowHitsMembers(raster, w, w.maxRow + 1, currCol, raster[currRow][currCol], threshold, p);
    assert InRange(p.row, w.minRow, w.maxRow) <==> w.minRow <= p.row < w.maxRow + 1;
    assert InRange(p.col, w.minCol, w.maxCol) <==> w.minCol <= p.col <= w.maxCol;
  }

  /**
   * The candidates come in discovery order, rows ascending and columns
   * ascending within a row; in particular no cell appears twice.
   */
  lemma StreamPixelsOrdered(raster: seq<seq<real>>, nrowsLessOne: int, ncolsLessOne: int,
                            windowSize: int, threshold: nat, currRow: int, currCol: int)
    requires IsGrid(raster, nrowsLessOne + 1, ncolsLessOne + 1)
    requires InRange(currRow, 0, nrowsLessOne) && InRange(currCol, 0, ncolsLessOne)
    ensures var s := StreamPixels(raster, nrowsLessOne, ncolsLessOne, windowSize, threshold, currRow, currCol);
      RowMajorOrdered(s) && forall i, j :: 0 <= i < j < |s| ==> s[i] != s[j]
  {
    var w := ClipWindow(windowSize, nrowsLessOne, ncolsLessOne, currRow, currCol);
    WindowHitsOrdered(raster, w, w.maxRow + 1, currCol, raster[currRow][currCol], threshold);
  }

  /**
   * Because every cell of a row is tested with that row's query-column
   * value, each window row contributes either all of its window columns or
   * none of them.
   */
  lemma RowAllOrNothing(raster: seq<seq<real>>, nrowsLessOne: int, ncolsLessOne: int,
                        windowSize: int, threshold: nat, currRow: int, currCol: int, row: int)
    requires IsGrid(raster, nrowsLessOne + 1, ncolsLessOne + 1)
    requires InRange(currRow, 0, nrowsLessOne) && InRange(currCol, 0, ncolsLessOne)
    ensures var w := ClipWindow(windowSize, nrowsLessOne, ncolsLessOne, currRow, currCol);
      var s := StreamPixels(raster, nrowsLessOne, ncolsLessOne, windowSize, threshold, currRow, currCol);
      (forall col :: InRange(col, w.minCol, w.maxCol) ==> Point(col, row) in s) ||
      (forall col :: Point(col, row) !in s)
  {
    var w := ClipWindow(windowSize, nrowsLessOne, ncolsLessOne, currRow, currCol);
    var s := StreamPixels(raster, nrowsLessOne, ncolsLessOne, windowSize, threshold, currRow, currCol);
    if InRange(row, w.minRow, w.maxRow) && ExceedsThreshold(raster[row][currCol], raster[currRow][currCol], threshold) {
      forall col | InRange(col, w.minCol, w.maxCol) ensures Point(col, row) in s {
        StreamPixelsMembers(raster, nrowsLessOne, ncolsLessOne, windowSize, threshold, currRow, currCol, Point(col, row));
      }
    } else {
      forall col ensures Point(col, row) !in s {
        StreamPixelsMembers(raster, nrowsLessOne, ncolsLessOne, windowSize, threshold, currRow, currCol, Point(col, row));
      }
    }
  }

  /** The query cell's own row never contributes: its tested value is the centre value itself. */
  lemma CentreRowExcluded(raster: seq<seq<real>>, nrowsLessOne: int, ncolsLessOne: int,
                          windowSize: int, threshold: nat, currRow: int, currCol: int, p: Point)
    requires IsGrid(raster, nrowsLessOne + 1, ncolsLessOne + 1)
    requires InRange(currRow, 0, nrowsLessOne) && InRange(currCol, 0, ncolsLessOne)
    requires raster[currRow][currCol] > 0.0
    requires p in StreamPixels(raster, nrowsLessOne, ncolsLessOne, windowSize, threshold, currRow, currCol)
    ensures p.row != currRow
  {
    StreamPixelsMembers(raster, nrowsLessOne, ncolsLessOne, windowSize, threshold, currRow, currCol, p);
    NotStreamAgainstItself(raster[currRow][currCol], threshold);
  }

  /** No candidate at all exactly when no window cell passes the test. */
  lemma NoStreamPixelsIff(raster: seq<seq<real>>, nrowsLessOne: int, ncolsLessOne: int,
                          windowSize: int, threshold: nat, currRow: int, currCol: int)
    requires IsGrid(raster, nrowsLessOne + 1, ncolsLessOne + 1)
    requires InRange(currRow, 0, nrowsLessOne) && InRange(currCol, 0, ncolsLessOne)
    ensures var w := ClipWindow(windowSize, nrowsLessOne, ncolsLessOne, currRow, currCol);
      StreamPixels(raster, nrowsLessOne, ncolsLessOne, windowSize, threshold, currRow, currCol) == [] <==>
      forall row, col :: InRange(row, w.minRow, w.maxRow) && InRange(col, w.minCol, w.maxCol) ==>
        !ExceedsThreshold(raster[row][currCol], raster[currRow][currCol], threshold)
  {
    var w := ClipWindow(windowSize, nrowsLessOne, ncolsLessOne, currRow, currCol);
    var s := StreamPixels(raster, nrowsLessOne, ncolsLessOne, windowSize, threshold, currRow, currCol);
    ClipWindowSpec(windowSize, nrowsLessOne, ncolsLessOne, currRow, currCol);
    if s != [] {
      StreamPixelsMembers(raster, nrowsLessOne, ncolsLessOne, windowSize, threshold, currRow, currCol, s[0]);
    } else {
      forall row, col | InRange(row, w.minRow, w.maxRow) && InRange(col, w.minCol, w.maxCol)
        ensures !ExceedsThreshold(raster[row][currCol], raster[currRow][currCol], threshold)
      {
        StreamPixelsMembers(raster, nrowsLessOne, ncolsLessOne, windowSize, threshold, currRow, currCol, Point(col, row));
      }
    }
  }

  /**
   * G_get_raster_row: copy row `row` of the raster into the caller's buffer
   * and record the read in the ghost log of rows read so far. The reader is
   * total on in-bounds rows (its failure path is not modelled).
   */
  method GetRasterRow(raster: seq<seq<real>>, row: int, buf: array<real>, ghost log: seq<int>)
    returns (ghost logAfter: seq<int>)
    requires 0 <= row < |raster| && |raster[row]| == buf.Length
    modifies buf
    ensures buf[..] == raster[row]
    ensures logAfter == log + [row]
  {
    logAfter := log + [row];
    forall i | 0 <= i < buf.Length {
      buf[i] := raster[row][i];
    }
  }

  /**
   * The window bounds as findStreamPixelsInWindow computes them: the
   * half-width around the query cell, each bound clamped to the raster.
   */
  method WindowBounds(windowSize: int, nrowsLessOne: int, ncolsLessOne: int, currRow: int, currCol: int)
    returns (minRow: int, maxRow: int, minCol: int, maxCol: int)
    ensures Window(minRow, maxRow, minCol, maxCol) == ClipWindow(windowSize, nrowsLessOne, ncolsLessOne, currRow, currCol)
  {
    var windowOffset := Offset(windowSize);
    minCol := currCol - windowOffset;
    if minCol < 0 { minCol := 0; }
    maxCol := currCol + windowOffset;
    if maxCol > ncolsLessOne { maxCol := ncolsLessOne; }
    minRow := currRow - windowOffset;
    if minRow < 0 { minRow := 0; }
    maxRow := currRow + windowOffset;
    if maxRow > nrowsLessOne { maxRow := nrowsLessOne; }
  }

  /**
   * Record one stream pixel: the first one creates the list, later ones are
   * appended at its tail.
   */
  method AddStreamPixel(head: PointNode?, ghost nodes: seq<PointNode>, col: int, row: int)
    returns (newHead: PointNode?, ghost newNodes: seq<PointNode>)
    requires IsList(head, nodes)
    modifies if nodes == [] then {} else {nodes[|nodes| - 1]}
    ensures IsList(newHead, newNodes) && newHead != null
    ensures Points(newNodes) == old(Points(nodes)) + [Point(col, row)]
    ensures |newNodes| == |nodes| + 1 && newNodes[..|nodes|] == nodes && fresh(newNodes[|nodes|])
  {
    if head == null {
      newHead := CreateList(col, row);
      newNodes := [newHead];
    } else {
      newHead := head;
      var tail := AppendPoint(head, nodes, col, row);
      newNodes := nodes + [tail];
    }
  }

  /**
   * The inner loop of findStreamPixelsInWindow over columns minCol..maxCol
   * of one window row held in `tmpRow`: every column is tested with
   * `tmpRow[currCol]` and, when it passes, (col, row) is added to the list.
   */
  method ScanRow(tmpRow: array<real>, row: int, minCol: int, maxCol: int, currCol: int,
                 centralValue: real, threshold: nat, head: PointNode?, ghost nodes: seq<PointNode>)
    returns (newHead: PointNode?, ghost newNodes: seq<PointNode>)
    requires 0 <= currCol < tmpRow.Length
    requires IsList(head, nodes)
    modifies if nodes == [] then {} else {nodes[|nodes| - 1]}
    ensures IsList(newHead, newNodes)
    ensures Points(newNodes) == old(Points(nodes))
                                + RowHits(tmpRow[..], row, minCol, maxCol + 1, currCol, centralValue, threshold)
    ensures newNodes == nodes || (newNodes != [] && fresh(newNodes[|newNodes| - 1]))
  {
    ghost var rowValues := tmpRow[..];
    ghost var start := Points(nodes);
    newHead, newNodes := head, nodes;
    var col := minCol;
    while col <= maxCol
      invariant minCol <= col && (col <= maxCol + 1 || col == minCol)
      invariant IsList(newHead, newNodes)
      invariant newNodes == nodes || (newNodes != [] && fresh(newNodes[|newNodes| - 1]))
      invariant Points(newNodes) == start + RowHits(rowValues, row, minCol, col, currCol, centralValue, threshold)
      decreases maxCol + 1 - col
    {
      var tmpValue := tmpRow[currCol];
      ghost var inRow := RowHits(rowValues, row, minCol, col, currCol, centralValue, threshold);
      if ExceedsThreshold(tmpValue, centralValue, threshold) {
        newHead, newNodes := AddStreamPixel(newHead, newNodes, col, row);
        assert Points(newNodes) == start + (inRow + [Point(col, row)]);
      }
      col := col + 1;
    }
  }

  /**
   * The outer loop of findStreamPixelsInWindow: read each window row in
   * ascending order into the reused buffer and scan its columns. The list
   * starts empty; the rows read are returned as a ghost.
   */
  method ScanWindow(raster: seq<seq<real>>, tmpRow: array<real>, w: Window,
                    currCol: int, centralValue: real, threshold: nat)
    returns (streamPixels: PointNode?, ghost nodes: seq<PointNode>, ghost rowsRead: seq<int>)
    requires 0 <= w.minRow && w.maxRow < |raster|
    requires 0 <= currCol < tmpRow.Length && forall r :: 0 <= r < |raster| ==> |raster[r]| == tmpRow.Length
    modifies tmpRow
    ensures IsList(streamPixels, nodes)
    ensures Points(nodes) == WindowHits(raster, w, w.maxRow + 1, currCol, centralValue, threshold)
    ensures rowsRead == RowSpan(w.minRow, w.maxRow + 1)
  {
    streamPixels := null;
    nodes := [];
    rowsRead := [];
    var row := w.minRow;
    while row <= w.maxRow
      invariant w.minRow <= row && (row <= w.maxRow + 1 || row == w.minRow)
      invariant nodes != [] ==> fresh(nodes[|nodes| - 1])
      invariant IsList(streamPixels, nodes)
      invariant Points(nodes) == WindowHits(raster, w, row, currCol, centralValue, threshold)
      invariant rowsRead == RowSpan(w.minRow, row)
      decreases w.maxRow + 1 - row
    {
      ghost var done := Points(nodes);
      rowsRead := GetRasterRow(raster, row, tmpRow, rowsRead);
      assert rowsRead == RowSpan(w.minRow, row + 1);
      assert Points(nodes) == done;
      streamPixels, nodes := ScanRow(tmpRow, row, w.minCol, w.maxCol, currCol, centralValue, threshold,
                                     streamPixels, nodes);
      ghost var hits := RowHits(raster[row], row, w.minCol, w.maxCol + 1, currCol, centralValue, threshold);
      assert Points(nodes) == done + hits;
      row := row + 1;
    }
    assert WindowHits(raster, w, row, currCol, centralValue, threshold)
        == WindowHits(raster, w, w.maxRow + 1, currCol, centralValue, threshold);
    assert RowSpan(w.minRow, row) == RowSpan(w.minRow, w.maxRow + 1);
  }

  /**
   * findStreamPixelsInWindow: returns the head of the list of candidates
   * (null when there are none) and, as ghosts, the list's nodes and the
   * sequence of rows read. The list holds exactly StreamPixels, in
   * discovery order; the centre row is read once, then each window row once,
   * in ascending order.
   */
  method FindStreamPixelsInWindow(raster: seq<seq<real>>, windowSize: int, threshold: int,
                                  nrowsLessOne: int, ncolsLessOne: int, currRow: int, currCol: int)
    returns (streamPixels: PointNode?, ghost nodes: seq<PointNode>, ghost rowsRead: seq<int>)
    requires windowSize % 2 == 1 && threshold > 0
    requires IsGrid(raster, nrowsLessOne + 1, ncolsLessOne + 1)
    requires InRange(currRow, 0, nrowsLessOne) && InRange(currCol, 0, ncolsLessOne)
    requires raster[currRow][currCol] > 0.0
    ensures IsList(streamPixels, nodes)
    ensures streamPixels == null <==> nodes == []
    ensures Points(nodes) == StreamPixels(raster, nrowsLessOne, ncolsLessOne, windowSize, threshold, currRow, currCol)
    ensures var w := ClipWindow(windowSize, nrowsLessOne, ncolsLessOne, currRow, currCol);
      rowsRead == [currRow] + RowSpan(w.minRow, w.maxRow + 1)
  {
    streamPixels := null;
    nodes := [];
    var tmpRow := new real[ncolsLessOne + 1];

    rowsRead := GetRasterRow(raster, currRow, tmpRow, []);
    var centralValue := tmpRow[currCol];

    var minRow, maxRow, minCol, maxCol := WindowBounds(windowSize, nrowsLessOne, ncolsLessOne, currRow, currCol);
    var w := Window(minRow, maxRow, minCol, maxCol);

    ghost var rows;
    streamPixels, nodes, rows := ScanWindow(raster, tmpRow, w, currCol, centralValue, threshold);
    rowsRead := rowsRead + rows;
  }

  /**
   * The window size main.c goes on with, or None where it prints its usage
   * message and exits: the user's value when given, otherwise the size
   * inferred from the cell resolution, bumped to the next odd number when
   * even; then anything below 2 or even is refused.
   */
  function AcceptedWindowSize(answer: Option<int>, inferred: int): (r: Option<int>)
    ensures r.Some? ==> r.value % 2 == 1 && r.value >= 3
    ensures answer.Some? ==>
      (r.Some? <==> answer.value % 2 == 1 && answer.value >= 3) && (r.Some? ==> r.value == answer.value)
    ensures answer.None? ==>
      (r.Some? <==> inferred >= 2) && (r.Some? ==> r.value - inferred in {0, 1})
  {
    var windowSize := if answer.Some? then answer.value
                      else if inferred % 2 == 0 then inferred + 1 else inferred;
    if windowSize < 2 || windowSize % 2 != 1 then None else Some(windowSize)
  }

  /**
   * The threshold main.c goes on with, or None where it prints its usage
   * message and exits: the user's value when given, otherwise the one
   * inferred from the raster's range; anything below 1 is refused.
   */
  function AcceptedThreshold(answer: Option<int>, inferred: int): (r: Option<int>)
    ensures r.Some? ==> r.value >= 1
    ensures answer.Some? ==> (r.Some? <==> answer.value >= 1) && (r.Some? ==> r.value == answer.value)
    ensures answer.None? ==> (r.Some? <==> inferred >= 1) && (r.Some? ==> r.value == inferred)
  {
    var threshold := if answer.Some? then answer.value else inferred;
    if threshold < 1 then None else Some(threshold)
  }

  /**
   * The window-size checks of main: take the user's value or the inferred
   * one (made odd), then refuse sizes below 2 or even. In C, `x & 1` on a
   * two's-complement int is 1 exactly when `x % 2 == 1` with Dafny's
   * Euclidean remainder, negative x included.
   */
  method ResolveWindowSize(answer: Option<int>, inferred: int) returns (windowSize: Option<int>)
    ensures windowSize == AcceptedWindowSize(answer, inferred)
  {
    var size: int;
    if answer.Some? {
      size := answer.value;
    } else {
      size := inferred;
      if size % 2 != 1 { size := size + 1; }
    }
    if size < 2 || size % 2 != 1 {
      return None;
    }
    return Some(size);
  }

  /** The threshold check of main: the user's value or the inferred one, refused below 1. */
  method ResolveThreshold(answer: Option<int>, inferred: int) returns (threshold: Option<int>)
    ensures threshold == AcceptedThreshold(answer, inferred)
  {
    var t: int;
    if answer.Some? {
      t := answer.value;
    } else {
      t := inferred;
    }
    if t < 1 {
      return None;
    }
    return Some(t);
  }

  /** How a run of the module ends. */
  datatype Outcome =
    | UsageError           // invalid window size or threshold: usage printed, exit status failure
    | NoStreamPixel        // nothing printed
    | StreamPixelAt(p: Point)  // the cell whose coordinates are printed

  /**
   * The computational part of main: validate the window size and the
   * threshold, collect the stream pixels around (rowIdx, colIdx) and pick
   * the one nearest to it.
   */
  method Run(raster: seq<seq<real>>, nrowsLessOne: int, ncolsLessOne: int,
             windowAnswer: Option<int>, inferredWindowSize: int,
             thresholdAnswer: Option<int>, inferredThreshold: int,
             rowIdx: int, colIdx: int)
    returns (outcome: Outcome)
    requires (AcceptedWindowSize(windowAnswer, inferredWindowSize).Some?
              && AcceptedThreshold(thresholdAnswer, inferredThreshold).Some?) ==>
      && IsGrid(raster, nrowsLessOne + 1, ncolsLessOne + 1)
      && InRange(rowIdx, 0, nrowsLessOne) && InRange(colIdx, 0, ncolsLessOne)
      && raster[rowIdx][colIdx] > 0.0
    ensures var ws := AcceptedWindowSize(windowAnswer, inferredWindowSize);
      var t := AcceptedThreshold(thresholdAnswer, inferredThreshold);
      if ws.None? || t.None? then outcome == UsageError
      else
        var s := StreamPixels(raster, nrowsLessOne, ncolsLessOne, ws.value, t.value, rowIdx, colIdx);
        match NearestIndex(s, colIdx, rowIdx) {
          case None => outcome == NoStreamPixel
          case Some(k) => outcome == StreamPixelAt(s[k])
        }
  {
    var windowSize := ResolveWindowSize(windowAnswer, inferredWindowSize);
    if windowSize.None? {
      return UsageError;
    }
    var threshold := ResolveThreshold(thresholdAnswer, inferredThreshold);
    if threshold.None? {
      return UsageError;
    }
    var streamPixels, nodes, rowsRead := FindStreamPixelsInWindow(raster, windowSize.value, threshold.value,
                                                                   nrowsLessOne, ncolsLessOne, rowIdx, colIdx);
    var nearest := FindNearestPoint(streamPixels, nodes, colIdx, rowIdx);
    if nearest == null {
      outcome := NoStreamPixel;
    } else {
      outcome := StreamPixelAt(Point(nearest.col, nearest.row));
    }
  }
}
