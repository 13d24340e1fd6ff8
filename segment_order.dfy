/**
 * The cells of a memstore segment as a segment scanner sees them: a sorted
 * set in the full cell order, read through an MVCC read point. tailSet and
 * headSet become the suffix and the prefix split at LowerBound; the
 * iteration of the scanner's updateCurrent becomes ScanStop.
 */
module SegmentOrder {
  import opened Bytes
  import opened Cells
  import opened Errors

  /** A cell the scanner may return: written at or before the read point. */
  predicate Visible(c: Cell, readPoint: int) {
    c.sequenceId <= readPoint
  }

  /** A segment's cells: strictly increasing in the cell order, none a synthetic search key. */
  predicate Wellformed(cells: seq<Cell>) {
    && (forall i, j :: 0 <= i < j < |cells| ==> CellLess(cells[i], cells[j]))
    && (forall i :: 0 <= i < |cells| ==> IsReal(cells[i]))
  }

  // ---- the cell order ----

  /** Not sorting before is transitive. */
  lemma NotLessTransitive(a: Cell, b: Cell, c: Cell)
    requires !CellLess(a, b) && !CellLess(b, c)
    ensures !CellLess(a, c)
  {
    CompareCellsAntisymmetric(a, b);
    CompareCellsAntisymmetric(b, c);
    CompareCellsAntisymmetric(a, c);
    CompareCellsTransitive(c, b, a);
  }

  /** A cell of a smaller row sorts first; a cell that does not sort first has a row at least as large. */
  lemma RowDecides(a: Cell, b: Cell)
    ensures Less(a.key.row, b.key.row) ==> CellLess(a, b)
    ensures !CellLess(a, b) ==> LessEq(b.key.row, a.key.row)
  {
    CompareAntisymmetric(a.key.row, b.key.row);
  }

  /** Two rows are ordered one way or the other. */
  lemma RowsTotal(x: Bytes, y: Bytes)
    ensures Less(x, y) || LessEq(y, x)
    ensures LessEq(x, y) && LessEq(y, x) ==> x == y
    ensures Less(x, y) ==> !LessEq(y, x)
  {
    CompareAntisymmetric(x, y);
  }

  /** Along a segment, rows never decrease. */
  lemma RowsMonotone(cells: seq<Cell>, i: nat, j: nat)
    requires Wellformed(cells) && i <= j < |cells|
    ensures LessEq(cells[i].key.row, cells[j].key.row)
  {
    if i < j {
      assert CellLess(cells[i], cells[j]);
      RowDecides(cells[j], cells[i]);
      CompareCellsAntisymmetric(cells[i], cells[j]);
    }
  }

  // ---- tailSet and headSet ----

  /** The first index from i on whose cell does not sort before c. */
  function LowerBoundFrom(cells: seq<Cell>, c: Cell, i: nat): (b: nat)
    requires i <= |cells|
    decreases |cells| - i
    ensures i <= b <= |cells|
    ensures forall k :: i <= k < b ==> CellLess(cells[k], c)
    ensures b < |cells| ==> !CellLess(cells[b], c)
  {
    if i == |cells| || !CellLess(cells[i], c) then i else LowerBoundFrom(cells, c, i + 1)
  }

  /** In a sorted segment, no cell after one that does not sort before c sorts before c. */
  lemma TailNotLess(cells: seq<Cell>, c: Cell, b: nat)
    requires Wellformed(cells) && b < |cells| && !CellLess(cells[b], c)
    ensures forall k :: b <= k < |cells| ==> !CellLess(cells[k], c)
  {
    forall k | b < k < |cells|
      ensures !CellLess(cells[k], c)
    {
      assert CellLess(cells[b], cells[k]);
      CompareCellsAntisymmetric(cells[b], cells[k]);
      NotLessTransitive(cells[k], cells[b], c);
    }
  }

  /**
   * Where tailSet(c) starts and headSet(c) ends: the cells before it sort
   * before c, the cells from it on do not.
   */
  function LowerBound(cells: seq<Cell>, c: Cell): (b: nat)
    requires Wellformed(cells)
    ensures b <= |cells|
    ensures forall k :: 0 <= k < b ==> CellLess(cells[k], c)
    ensures forall k :: b <= k < |cells| ==> !CellLess(cells[k], c)
  {
    var b := LowerBoundFrom(cells, c, 0);
    if b < |cells| then TailNotLess(cells, c, b); b else b
  }

  // ---- updateCurrent's iteration ----

  /** With a stop row (backward scans), a cell of a later row ends the skipping. */
  predicate BeyondRow(c: Cell, stopRow: Option<Bytes>) {
    stopRow.Some? && Compare(c.key.row, stopRow.value) > 0
  }

  /**
   * The index where updateCurrent stops when iterating from index from: the
   * first visible cell, or the first cell beyond the stop row, or the end.
   */
  function ScanStop(cells: seq<Cell>, from: nat, readPoint: int, stopRow: Option<Bytes>): (j: nat)
    requires from <= |cells|
    decreases |cells| - from
    ensures from <= j <= |cells|
    ensures forall k :: from <= k < j ==> !Visible(cells[k], readPoint) && !BeyondRow(cells[k], stopRow)
    ensures j < |cells| ==> Visible(cells[j], readPoint) || BeyondRow(cells[j], stopRow)
  {
    if from == |cells| || Visible(cells[from], readPoint) || BeyondRow(cells[from], stopRow) then from
    else ScanStop(cells, from + 1, readPoint, stopRow)
  }

  /** An index past only skipped cells, that stops or is the end, is where the iteration stops. */
  lemma ScanStopAt(cells: seq<Cell>, from: nat, readPoint: int, stopRow: Option<Bytes>, m: nat)
    requires from <= m <= |cells|
    requires forall k :: from <= k < m ==> !Visible(cells[k], readPoint) && !BeyondRow(cells[k], stopRow)
    requires m < |cells| ==> Visible(cells[m], readPoint) || BeyondRow(cells[m], stopRow)
    ensures ScanStop(cells, from, readPoint, stopRow) == m
  {
  }

  /** The cell updateCurrent makes current after iterating from index from, if any. */
  function ScanResult(cells: seq<Cell>, from: nat, readPoint: int, stopRow: Option<Bytes>): (r: Option<Cell>)
    requires from <= |cells|
    ensures r.Some? ==> Visible(r.value, readPoint)
  {
    var j := ScanStop(cells, from, readPoint, stopRow);
    if j < |cells| && Visible(cells[j], readPoint) then Some(cells[j]) else None
  }

  // ---- what seek finds ----

  /**
   * cur is the first visible cell that does not sort before c, or None when
   * there is no such cell.
   */
  ghost predicate FirstVisibleAtOrAfter(cells: seq<Cell>, readPoint: int, c: Cell, cur: Option<Cell>) {
    && (cur.Some? ==>
          && Visible(cur.value, readPoint) && !CellLess(cur.value, c)
          && forall k :: 0 <= k < |cells| && !CellLess(cells[k], c) && CellLess(cells[k], cur.value) ==>
               !Visible(cells[k], readPoint))
    && (cur.None? ==> forall k :: 0 <= k < |cells| && !CellLess(cells[k], c) ==> !Visible(cells[k], readPoint))
  }

  /** Iterating from tailSet(c) without a stop row finds the first visible cell at or after c. */
  lemma SeekFindsFirstVisible(cells: seq<Cell>, readPoint: int, c: Cell)
    requires Wellformed(cells)
    ensures FirstVisibleAtOrAfter(cells, readPoint, c, ScanResult(cells, LowerBound(cells, c), readPoint, None))
  {
    var b := LowerBound(cells, c);
    var j := ScanStop(cells, b, readPoint, None);
    forall k | 0 <= k < |cells| && !CellLess(cells[k], c) && (j < |cells| ==> CellLess(cells[k], cells[j]))
      ensures !Visible(cells[k], readPoint)
    {
      if j < |cells| && j <= k {
        if j < k {
          assert CellLess(cells[j], cells[k]);
          CompareCellsAntisymmetric(cells[j], cells[k]);
        }
        assert false;
      }
    }
  }

  // ---- seekToPreviousRow ----

  /** No visible cell has a row from lo (included) up to hi (excluded). */
  ghost predicate HiddenRows(cells: seq<Cell>, readPoint: int, lo: Bytes, hi: Bytes) {
    forall k :: 0 <= k < |cells| && LessEq(lo, cells[k].key.row) && Less(cells[k].key.row, hi) ==>
      !Visible(cells[k], readPoint)
  }

  /** An empty range of rows hides nothing. */
  lemma HiddenRowsEmpty(cells: seq<Cell>, readPoint: int, x: Bytes)
    ensures HiddenRows(cells, readPoint, x, x)
  {
    forall k | 0 <= k < |cells|
      ensures !(LessEq(x, cells[k].key.row) && Less(cells[k].key.row, x))
    {
      RowsTotal(cells[k].key.row, x);
    }
  }

  /** No visible cell has a row strictly between lo and hi. */
  ghost predicate HiddenBetween(cells: seq<Cell>, readPoint: int, lo: Bytes, hi: Bytes) {
    forall k :: 0 <= k < |cells| && Less(lo, cells[k].key.row) && Less(cells[k].key.row, hi) ==>
      !Visible(cells[k], readPoint)
  }

  /** No visible cell has a row before top. */
  ghost predicate NoVisibleBefore(cells: seq<Cell>, readPoint: int, top: Bytes) {
    forall k :: 0 <= k < |cells| && Less(cells[k].key.row, top) ==> !Visible(cells[k], readPoint)
  }

  /** Cell j is visible and no earlier cell of its row is. */
  ghost predicate FirstVisibleOfRow(cells: seq<Cell>, readPoint: int, j: nat) {
    && j < |cells| && Visible(cells[j], readPoint)
    && forall k :: 0 <= k < j && cells[k].key.row == cells[j].key.row ==> !Visible(cells[k], readPoint)
  }

  /**
   * Cell j is the first visible cell of the last row before top that has a
   * visible cell.
   */
  ghost predicate PreviousRowFound(cells: seq<Cell>, readPoint: int, top: Bytes, j: nat) {
    && FirstVisibleOfRow(cells, readPoint, j)
    && Less(cells[j].key.row, top)
    && HiddenBetween(cells, readPoint, cells[j].key.row, top)
  }

  /** The cells of the row of the cell just before the first-on-row key of R. */
  lemma PreviousRowBounds(cells: seq<Cell>, R: Bytes)
    requires Wellformed(cells) && LowerBound(cells, FirstOnRow(R)) > 0
    ensures var lb := LowerBound(cells, FirstOnRow(R));
      var P := cells[lb - 1].key.row;
      var lb2 := LowerBound(cells, FirstOnRow(P));
      && Less(P, R) && lb2 < lb
      && (forall k :: 0 <= k < |cells| && cells[k].key.row == P ==> lb2 <= k < lb)
      && (forall k :: lb2 <= k < |cells| ==> LessEq(P, cells[k].key.row))
      && (forall k :: 0 <= k < |cells| && Less(P, cells[k].key.row) ==> LessEq(R, cells[k].key.row))
  {
    var lb := LowerBound(cells, FirstOnRow(R));
    var P := cells[lb - 1].key.row;
    var lb2 := LowerBound(cells, FirstOnRow(P));
    FirstOnRowSplitsRows(cells[lb - 1], R);
    FirstOnRowSplitsRows(cells[lb - 1], P);
    RowsTotal(P, P);
    forall k | 0 <= k < |cells|
      ensures cells[k].key.row == P ==> lb2 <= k < lb
      ensures lb2 <= k ==> LessEq(P, cells[k].key.row)
      ensures Less(P, cells[k].key.row) ==> LessEq(R, cells[k].key.row)
    {
      FirstOnRowSplitsRows(cells[k], P);
      FirstOnRowSplitsRows(cells[k], R);
      RowsTotal(cells[k].key.row, P);
      RowsTotal(cells[k].key.row, R);
      if k < lb {
        RowsMonotone(cells, k, lb - 1);
      }
    }
  }

  /**
   * One round of seekToPreviousRow from the row R, knowing that no visible
   * cell has a row from R up to top: the row P before R is searched; either
   * the scan stops in P at the row's first visible cell, which is then the
   * one sought, or no visible cell has a row from P up to top.
   */
  lemma PreviousRowStep(cells: seq<Cell>, readPoint: int, top: Bytes, R: Bytes)
    requires Wellformed(cells) && HiddenRows(cells, readPoint, R, top) && LessEq(R, top)
    requires LowerBound(cells, FirstOnRow(R)) > 0
    ensures var lb := LowerBound(cells, FirstOnRow(R));
      var P := cells[lb - 1].key.row;
      var j := ScanStop(cells, LowerBound(cells, FirstOnRow(P)), readPoint, Some(P));
      var cur := ScanResult(cells, LowerBound(cells, FirstOnRow(P)), readPoint, Some(P));
      && Less(P, R) && LessEq(P, top)
      && LowerBound(cells, FirstOnRow(P)) < LowerBound(cells, FirstOnRow(R))
      && (cur.Some? && Compare(cur.value.key.row, P) <= 0 ==> cur == Some(cells[j]) && PreviousRowFound(cells, readPoint, top, j))
      && (cur.None? || Compare(cur.value.key.row, P) > 0 ==> HiddenRows(cells, readPoint, P, top))
  {
    var lb := LowerBound(cells, FirstOnRow(R));
    var P := cells[lb - 1].key.row;
    var lb2 := LowerBound(cells, FirstOnRow(P));
    var j := ScanStop(cells, lb2, readPoint, Some(P));
    PreviousRowBounds(cells, R);
    CompareTransitive(P, R, top);
    if j < |cells| && Visible(cells[j], readPoint) && Compare(cells[j].key.row, P) <= 0 {
      RowsTotal(P, cells[j].key.row);
      assert cells[j].key.row == P;
      forall k | 0 <= k < |cells| && Less(P, cells[k].key.row) && Less(cells[k].key.row, top)
        ensures !Visible(cells[k], readPoint)
      {
        assert LessEq(R, cells[k].key.row);
      }
    } else {
      assert j < |cells| ==> Compare(cells[j].key.row, P) > 0;
      forall k | 0 <= k < |cells| && LessEq(P, cells[k].key.row) && Less(cells[k].key.row, top)
        ensures !Visible(cells[k], readPoint)
      {
        RowsTotal(P, cells[k].key.row);
        if cells[k].key.row == P {
          if j <= k {
            RowsMonotone(cells, j, k);
            CompareAntisymmetric(cells[j].key.row, P);
          }
        } else {
          assert LessEq(R, cells[k].key.row);
        }
      }
    }
  }

  /** When no cell sorts before the first-on-row key of R, every cell before top has a row from R on. */
  lemma PreviousRowNone(cells: seq<Cell>, readPoint: int, top: Bytes, R: Bytes)
    requires Wellformed(cells) && HiddenRows(cells, readPoint, R, top)
    requires LowerBound(cells, FirstOnRow(R)) == 0
    ensures NoVisibleBefore(cells, readPoint, top)
  {
    forall k | 0 <= k < |cells| && Less(cells[k].key.row, top)
      ensures !Visible(cells[k], readPoint)
    {
      FirstOnRowSplitsRows(cells[k], R);
      RowsTotal(cells[k].key.row, R);
    }
  }

  // ---- backwardSeek and seekToLastRow ----

  /** No visible cell of key's row sorts at or after key. */
  ghost predicate HiddenInRowFrom(cells: seq<Cell>, readPoint: int, key: Cell) {
    forall k :: 0 <= k < |cells| && cells[k].key.row == key.key.row && !CellLess(cells[k], key) ==>
      !Visible(cells[k], readPoint)
  }

  /**
   * After seeking forward to key: when nothing was found or the cell found
   * lies in a later row, key's row has no visible cell at or after key;
   * otherwise the cell found lies in key's row.
   */
  lemma BackwardSeekFacts(cells: seq<Cell>, readPoint: int, key: Cell, cur: Option<Cell>)
    requires FirstVisibleAtOrAfter(cells, readPoint, key, cur)
    ensures cur.None? || Compare(cur.value.key.row, key.key.row) > 0 ==> HiddenInRowFrom(cells, readPoint, key)
    ensures cur.Some? && Compare(cur.value.key.row, key.key.row) <= 0 ==> cur.value.key.row == key.key.row
  {
    if cur.Some? {
      RowDecides(cur.value, key);
      RowsTotal(cur.value.key.row, key.key.row);
      CompareAntisymmetric(cur.value.key.row, key.key.row);
      forall k | 0 <= k < |cells| && cells[k].key.row == key.key.row && !CellLess(cells[k], key)
                 && Compare(cur.value.key.row, key.key.row) > 0
        ensures !Visible(cells[k], readPoint)
      {
        RowDecides(cells[k], cur.value);
      }
    }
  }

  /** Cell j is the first visible cell of the last row that has a visible cell. */
  ghost predicate LastVisibleRow(cells: seq<Cell>, readPoint: int, j: nat) {
    && FirstVisibleOfRow(cells, readPoint, j)
    && forall k :: 0 <= k < |cells| && Less(cells[j].key.row, cells[k].key.row) ==> !Visible(cells[k], readPoint)
  }

  /** The row of the segment's last cell. */
  function LastRow(cells: seq<Cell>): Bytes
    requires |cells| > 0
  {
    cells[|cells| - 1].key.row
  }

  /** Every row of the segment is at most the last row; the cells of the last row are the tailSet of its first-on-row key. */
  lemma LastRowBounds(cells: seq<Cell>)
    requires Wellformed(cells) && |cells| > 0
    ensures forall k :: 0 <= k < |cells| ==> LessEq(cells[k].key.row, LastRow(cells))
    ensures forall k :: 0 <= k < |cells| ==>
      (!CellLess(cells[k], FirstOnRow(LastRow(cells))) <==> cells[k].key.row == LastRow(cells))
  {
    forall k | 0 <= k < |cells|
      ensures LessEq(cells[k].key.row, LastRow(cells))
      ensures !CellLess(cells[k], FirstOnRow(LastRow(cells))) <==> cells[k].key.row == LastRow(cells)
    {
      RowsMonotone(cells, k, |cells| - 1);
      FirstOnRowSplitsRows(cells[k], LastRow(cells));
      RowsTotal(cells[k].key.row, LastRow(cells));
    }
  }

  /** A visible cell found at or after the first-on-row key of the last row is the one seekToLastRow wants. */
  lemma LastRowFromSeek(cells: seq<Cell>, readPoint: int, j: nat)
    requires Wellformed(cells) && j < |cells|
    requires FirstVisibleAtOrAfter(cells, readPoint, FirstOnRow(LastRow(cells)), Some(cells[j]))
    ensures LastVisibleRow(cells, readPoint, j)
  {
    LastRowBounds(cells);
    RowsTotal(LastRow(cells), LastRow(cells));
    forall k | 0 <= k < j && cells[k].key.row == cells[j].key.row
      ensures !Visible(cells[k], readPoint)
    {
      assert CellLess(cells[k], cells[j]);
    }
    forall k | 0 <= k < |cells|
      ensures !Less(cells[j].key.row, cells[k].key.row)
    {
      RowsTotal(LastRow(cells), cells[k].key.row);
    }
  }

  /** When seeking the last row finds nothing, no cell of the last row is visible. */
  lemma LastRowHidden(cells: seq<Cell>, readPoint: int)
    requires Wellformed(cells) && |cells| > 0
    requires FirstVisibleAtOrAfter(cells, readPoint, FirstOnRow(LastRow(cells)), None)
    ensures forall k :: 0 <= k < |cells| && cells[k].key.row == LastRow(cells) ==> !Visible(cells[k], readPoint)
  {
    LastRowBounds(cells);
  }

  /**
   * With the last row hidden, the first visible cell of the last earlier row
   * that has one is the one seekToLastRow wants, and when there is none no
   * cell is visible at all.
   */
  lemma LastRowFromPrevious(cells: seq<Cell>, readPoint: int)
    requires Wellformed(cells) && |cells| > 0
    requires forall k :: 0 <= k < |cells| && cells[k].key.row == LastRow(cells) ==> !Visible(cells[k], readPoint)
    ensures forall j :: PreviousRowFound(cells, readPoint, LastRow(cells), j) ==> LastVisibleRow(cells, readPoint, j)
    ensures NoVisibleBefore(cells, readPoint, LastRow(cells)) ==> forall k :: 0 <= k < |cells| ==> !Visible(cells[k], readPoint)
  {
    LastRowBounds(cells);
    forall k | 0 <= k < |cells|
      ensures Less(cells[k].key.row, LastRow(cells)) || cells[k].key.row == LastRow(cells)
    {
      RowsTotal(cells[k].key.row, LastRow(cells));
    }
    forall j: nat, k | PreviousRowFound(cells, readPoint, LastRow(cells), j) && 0 <= k < |cells|
                  && Less(cells[j].key.row, cells[k].key.row)
      ensures !Visible(cells[k], readPoint)
    {
    }
  }
}
