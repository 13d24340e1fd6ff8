/**
 * A scanner over one memstore segment: a cursor over the segment's sorted
 * cells that returns only the cells visible at its read point, supports
 * forward seeks and reseeks, the backward steps of a reversed scan, and
 * releases the segment when closed.
 */
module Scanner {
  import opened Bytes
  import opened Cells
  import opened Errors
  import opened SegmentOrder

  /** The part of a memstore segment a scanner uses: its cells, fixed, and its count of open scanners. */
  class Segment {
    const cells: seq<Cell>
    var scannerCount: int

    /** The cell set keeps its cells sorted. */
    predicate Valid() {
      Wellformed(cells)
    }

    constructor(cells: seq<Cell>)
      requires Wellformed(cells)
      ensures Valid() && this.cells == cells && scannerCount == 0
    {
      this.cells := cells;
      scannerCount := 0;
    }

    method IncScannerCount()
      modifies this
      ensures scannerCount == old(scannerCount) + 1
    {
      scannerCount := scannerCount + 1;
    }

    method DecScannerCount()
      modifies this
      ensures scannerCount == old(scannerCount) - 1
    {
      scannerCount := scannerCount - 1;
    }
  }

  /**
   * The loop of updateCurrent over a segment's cells from index from: it
   * stops after the first visible cell or the first cell beyond the stop
   * row, or at the end; next is the last cell iterated, if any.
   */
  method Iterate(cells: seq<Cell>, from: nat, readPoint: Long, stopRow: Option<Bytes>) returns (i: nat, next: Option<Cell>)
    requires from <= |cells|
    ensures var j := ScanStop(cells, from, readPoint, stopRow);
      i == (if j < |cells| then j + 1 else |cells|)
    ensures next == (if from < i then Some(cells[i - 1]) else None)
    ensures ScanResult(cells, from, readPoint, stopRow) == (if next.Some? && Visible(next.value, readPoint) then next else None)
  {
    i := from;
    next := None;
    var stop := false;
    while i < |cells| && !stop
      invariant from <= i <= |cells|
      invariant forall k :: from <= k < (if stop then i - 1 else i) ==>
        !Visible(cells[k], readPoint) && !BeyondRow(cells[k], stopRow)
      invariant stop ==> from < i && (Visible(cells[i - 1], readPoint) || BeyondRow(cells[i - 1], stopRow))
      invariant next == (if from < i then Some(cells[i - 1]) else None)
      decreases |cells| - i
    {
      next := Some(cells[i]);
      i := i + 1;
      if Visible(next.value, readPoint) || BeyondRow(next.value, stopRow) {
        stop := true;
      }
    }
    ScanStopAt(cells, from, readPoint, stopRow, if stop then i - 1 else i);
  }

  /**
   * getHighest: the later of two cells in the cell order, either of which
   * may be null; the second when they compare equal.
   */
  function Highest(first: Option<Cell>, second: Option<Cell>): (r: Option<Cell>)
    ensures r.None? <==> first.None? && second.None?
    ensures r == first || r == second
    ensures first.Some? ==> !CellLess(r.value, first.value)
    ensures second.Some? ==> !CellLess(r.value, second.value)
  {
    if first.None? && second.None? then None
    else if first.Some? && second.Some? then
      CompareCellsAntisymmetric(first.value, second.value);
      if CompareCells(first.value, second.value) > 0 then first else second
    else if first.Some? then first
    else second
  }

  class SegmentScanner {
    const segment: Segment
    const readPoint: Long
    /** Where the iterator stands: the next cell it returns is segment.cells[pos]. */
    var pos: nat
    var current: Option<Cell>
    /** The last cell the iterator returned, for reseek. */
    var last: Option<Cell>
    var closed: bool
    var stopSkippingKVsIfNextRow: bool
    var stopSkippingKVsRow: Option<Cell>

    /** The iterator lies within the sorted segment, and a stop row is set whenever the flag is. */
    ghost predicate Positioned()
      reads this
    {
      && Wellformed(segment.cells) && pos <= |segment.cells|
      && (stopSkippingKVsIfNextRow ==> stopSkippingKVsRow.Some?)
    }

    /** Besides: current, if any, is visible and is the cell the iterator returned last. */
    ghost predicate Scanning()
      reads this
    {
      && Positioned()
      && (current.Some? ==> 0 < pos && current.value == segment.cells[pos - 1] && Visible(current.value, readPoint))
    }

    /** Between public calls the stop-row flag is off. */
    ghost predicate Valid()
      reads this
    {
      Scanning() && !stopSkippingKVsIfNextRow
    }

    /** The row updateCurrent stops beyond, when the flag is set. */
    function StopRow(): Option<Bytes>
      reads this
    {
      if stopSkippingKVsIfNextRow && stopSkippingKVsRow.Some? then Some(stopSkippingKVsRow.value.key.row) else None
    }

    /** What updateCurrent leaves after iterating from index from, when the last cell iterated was lastBefore. */
    ghost predicate ScannedFrom(from: nat, lastBefore: Option<Cell>)
      reads this
    {
      && from <= |segment.cells|
      && var j := ScanStop(segment.cells, from, readPoint, StopRow());
         && pos == (if j < |segment.cells| then j + 1 else |segment.cells|)
         && current == ScanResult(segment.cells, from, readPoint, StopRow())
         && last == (if from < pos then Some(segment.cells[pos - 1]) else lastBefore)
    }

    /**
     * A scanner at the first visible cell of the segment, closed at once when
     * there is none; it counts as one of the segment's scanners while open.
     */
    constructor(segment: Segment, readPoint: Long)
      requires segment.Valid()
      modifies segment
      ensures Valid() && this.segment == segment && this.readPoint == readPoint
      ensures current == ScanResult(segment.cells, 0, readPoint, None)
      ensures closed <==> forall k :: 0 <= k < |segment.cells| ==> !Visible(segment.cells[k], readPoint)
      ensures segment.scannerCount == old(segment.scannerCount) + (if closed then 0 else 1)
    {
      this.segment := segment;
      this.readPoint := readPoint;
      pos := 0;
      current := None;
      last := None;
      closed := false;
      stopSkippingKVsIfNextRow := false;
      stopSkippingKVsRow := None;
      new;
      segment.IncScannerCount();
      UpdateCurrent();
      if current.None? {
        Close();
      }
    }

    /**
     * peek: nothing once closed; otherwise current, unless current lies above
     * the read point, which a scanner keeping its invariant never has.
     */
    function Peek(): (r: Result<Option<Cell>>)
      reads this
      ensures closed ==> r == Ok(None)
      ensures Scanning() ==> r.Ok?
      ensures r.Ok? && r.value.Some? ==> Visible(r.value.value, readPoint)
    {
      if closed then Ok(None)
      else if current.Some? && current.value.sequenceId > readPoint then Err(InvalidCurrent)
      else Ok(current)
    }

    /**
     * updateCurrent: iterate until a visible cell, which becomes current, or
     * (with the stop flag) a cell of a later row than the stop row, or the
     * end; last becomes the last cell iterated, if any.
     */
    method UpdateCurrent()
      requires Positioned()
      modifies this
      ensures Scanning() && ScannedFrom(old(pos), old(last))
      ensures closed == old(closed)
      ensures stopSkippingKVsIfNextRow == old(stopSkippingKVsIfNextRow) && stopSkippingKVsRow == old(stopSkippingKVsRow)
    {
      var stopRow := StopRow();
      var i, next := Iterate(segment.cells, pos, readPoint, stopRow);
      var visible := if next.Some? && Visible(next.value, readPoint) then next else None;
      pos, current, last := i, visible, if next.Some? then next else last;
      assert StopRow() == stopRow;
    }

    /** next: the current cell, and the scanner moves on to the next visible one, which sorts after it. */
    method Next() returns (r: Option<Cell>)
      requires Valid()
      modifies this
      ensures Valid()
      ensures old(closed) ==> r.None? && unchanged(this)
      ensures !old(closed) ==> !closed && r == old(current) && ScannedFrom(old(pos), old(last))
      ensures !old(closed) && r.Some? && current.Some? ==> CellLess(r.value, current.value)
    {
      if closed {
        return None;
      }
      var oldCurrent := current;
      ghost var before := pos;
      UpdateCurrent();
      if oldCurrent.Some? && current.Some? {
        assert before - 1 < pos - 1;
      }
      return oldCurrent;
    }

    /**
     * seek: null closes the scanner; otherwise the scanner restarts at the
     * tailSet of the cell and (without a stop row) stops at the first visible
     * cell at or after it, reporting whether there is one.
     */
    method Seek(cell: Option<Cell>) returns (r: bool)
      requires Scanning()
      modifies this, segment
      ensures Scanning()
      ensures stopSkippingKVsIfNextRow == old(stopSkippingKVsIfNextRow) && stopSkippingKVsRow == old(stopSkippingKVsRow)
      ensures old(closed) ==> !r && unchanged(this) && unchanged(segment)
      ensures !old(closed) && cell.None? ==>
        && !r && closed && segment.scannerCount == old(segment.scannerCount) - 1
        && pos == old(pos) && current == old(current) && last == old(last)
      ensures !old(closed) && cell.Some? ==>
        && !closed && segment.scannerCount == old(segment.scannerCount)
        && ScannedFrom(LowerBound(segment.cells, cell.value), None)
        && r == current.Some?
        && (StopRow().None? ==> FirstVisibleAtOrAfter(segment.cells, readPoint, cell.value, current))
    {
      if closed {
        return false;
      }
      if cell.None? {
        Close();
        return false;
      }
      pos := LowerBound(segment.cells, cell.value);
      last := None;
      UpdateCurrent();
      SeekFindsFirstVisible(segment.cells, readPoint, cell.value);
      return current.Some?;
    }

    /**
     * reseek: restart at the tailSet of the later of the cell and the last
     * cell iterated, so the scanner never moves back before where it was, and
     * stop at the first visible cell from there.
     */
    method Reseek(cell: Cell) returns (r: bool)
      requires Valid()
      modifies this
      ensures Valid()
      ensures old(closed) ==> !r && unchanged(this)
      ensures !old(closed) ==>
        var h := Highest(Some(cell), old(last)).value;
        && !closed && r == current.Some?
        && ScannedFrom(LowerBound(segment.cells, h), old(last))
        && FirstVisibleAtOrAfter(segment.cells, readPoint, h, current)
      ensures !old(closed) && current.Some? ==>
        !CellLess(current.value, cell) && (old(last).Some? ==> !CellLess(current.value, old(last).value))
    {
      if closed {
        return false;
      }
      ghost var lastBefore := last;
      var h := Highest(Some(cell), last);
      pos := LowerBound(segment.cells, h.value);
      UpdateCurrent();
      SeekFindsFirstVisible(segment.cells, readPoint, h.value);
      if current.Some? {
        NotLessTransitive(current.value, h.value, cell);
        if lastBefore.Some? {
          NotLessTransitive(current.value, h.value, lastBefore.value);
        }
      }
      return current.Some?;
    }

    /**
     * seekToPreviousRow: the first visible cell of the last row before the
     * cell's row that has one; when there is none, current becomes null.
     */
    method SeekToPreviousRow(cell: Cell) returns (r: bool)
      requires Valid()
      modifies this, segment
      ensures Valid()
      ensures old(closed) ==> !r && unchanged(this) && unchanged(segment)
      ensures !old(closed) ==> !closed && segment.scannerCount == old(segment.scannerCount)
      ensures !old(closed) && r ==>
        current.Some? && 0 < pos && PreviousRowFound(segment.cells, readPoint, cell.key.row, pos - 1)
      ensures !old(closed) && !r ==> current.None? && NoVisibleBefore(segment.cells, readPoint, cell.key.row)
    {
      if closed {
        return false;
      }
      var key := cell;
      RowsTotal(cell.key.row, cell.key.row);
      HiddenRowsEmpty(segment.cells, readPoint, cell.key.row);
      var keepSeeking := true;
      while keepSeeking
        invariant Valid() && !closed && segment.scannerCount == old(segment.scannerCount)
        invariant keepSeeking ==> LessEq(key.key.row, cell.key.row) && HiddenRows(segment.cells, readPoint, key.key.row, cell.key.row)
        invariant !keepSeeking ==> current.Some? && 0 < pos && PreviousRowFound(segment.cells, readPoint, cell.key.row, pos - 1)
        decreases keepSeeking, LowerBound(segment.cells, FirstOnRow(key.key.row))
      {
        var found;
        found, keepSeeking, key := PreviousRowRound(cell, key);
        if !found && !keepSeeking {
          return false;
        }
      }
      return true;
    }

    /**
     * One round of seekToPreviousRow's loop from key's row, knowing that no
     * visible cell has a row from key's row up to the cell's: when nothing
     * sorts before key's row, current becomes null and the search fails;
     * otherwise the row P before it is scanned with P as the stop row, and
     * either the scanner stops at the first visible cell of P, which is the
     * one sought, or the search goes on from P.
     */
    method PreviousRowRound(cell: Cell, key: Cell) returns (found: bool, keepSeeking: bool, next: Cell)
      requires Valid() && !closed
      requires LessEq(key.key.row, cell.key.row) && HiddenRows(segment.cells, readPoint, key.key.row, cell.key.row)
      modifies this, segment
      ensures Valid() && !closed && segment.scannerCount == old(segment.scannerCount)
      ensures found ==> !keepSeeking && current.Some? && 0 < pos && PreviousRowFound(segment.cells, readPoint, cell.key.row, pos - 1)
      ensures !found && !keepSeeking ==> current.None? && NoVisibleBefore(segment.cells, readPoint, cell.key.row)
      ensures keepSeeking ==>
        && LessEq(next.key.row, cell.key.row) && HiddenRows(segment.cells, readPoint, next.key.row, cell.key.row)
        && LowerBound(segment.cells, FirstOnRow(next.key.row)) < LowerBound(segment.cells, FirstOnRow(key.key.row))
    {
      var firstKeyOnRow := FirstOnRow(key.key.row);
      var headEnd := LowerBound(segment.cells, firstKeyOnRow);
      if headEnd == 0 {
        PreviousRowNone(segment.cells, readPoint, cell.key.row, key.key.row);
        current := None;
        return false, false, key;
      }
      var lastCellBeforeRow := segment.cells[headEnd - 1];
      var firstKeyOnPreviousRow := FirstOnRow(lastCellBeforeRow.key.row);
      PreviousRowStep(segment.cells, readPoint, cell.key.row, key.key.row);
      SeekWithinRow(firstKeyOnPreviousRow);
      var p := Peek().value;
      if p.None? || CompareRows(p.value, firstKeyOnPreviousRow) > 0 {
        return false, true, firstKeyOnPreviousRow;
      }
      return true, false, key;
    }

    /**
     * The seek of a seekToPreviousRow round: with the stop-row flag set to
     * the first-on-row key, so that skipping invisible cells ends at the next
     * row, and cleared again afterwards.
     */
    method SeekWithinRow(firstKeyOnRow: Cell)
      requires Valid() && !closed
      modifies this, segment
      ensures Valid() && !closed && segment.scannerCount == old(segment.scannerCount)
      ensures var j := ScanStop(segment.cells, LowerBound(segment.cells, firstKeyOnRow), readPoint, Some(firstKeyOnRow.key.row));
        && current == ScanResult(segment.cells, LowerBound(segment.cells, firstKeyOnRow), readPoint, Some(firstKeyOnRow.key.row))
        && (current.Some? ==> pos == j + 1)
    {
      stopSkippingKVsIfNextRow := true;
      stopSkippingKVsRow := Some(firstKeyOnRow);
      var _ := Seek(Some(firstKeyOnRow));
      stopSkippingKVsIfNextRow := false;
    }

    /**
     * backwardSeek: seek forward to the key; stay when the cell found lies
     * in the key's row, otherwise go to the previous row.
     */
    method BackwardSeek(key: Cell) returns (r: bool)
      requires Valid()
      modifies this, segment
      ensures Valid()
      ensures old(closed) ==> !r && unchanged(this) && unchanged(segment)
      ensures !old(closed) ==> !closed && segment.scannerCount == old(segment.scannerCount)
      ensures !old(closed) && r ==>
        && current.Some? && 0 < pos
        && ( (current.value.key.row == key.key.row && FirstVisibleAtOrAfter(segment.cells, readPoint, key, current))
          || (HiddenInRowFrom(segment.cells, readPoint, key) && PreviousRowFound(segment.cells, readPoint, key.key.row, pos - 1)))
      ensures !old(closed) && !r ==>
        current.None? && HiddenInRowFrom(segment.cells, readPoint, key) && NoVisibleBefore(segment.cells, readPoint, key.key.row)
    {
      if closed {
        return false;
      }
      var _ := Seek(Some(key));
      var p := Peek().value;
      BackwardSeekFacts(segment.cells, readPoint, key, p);
      if p.None? || CompareRows(p.value, key) > 0 {
        r := SeekToPreviousRow(key);
        return;
      }
      return true;
    }

    /**
     * seekToLastRow: the first visible cell of the last row that has one,
     * reporting whether the segment has a visible cell at all.
     */
    method SeekToLastRow() returns (r: bool)
      requires Valid()
      modifies this, segment
      ensures Valid()
      ensures old(closed) ==> !r && unchanged(this) && unchanged(segment)
      ensures !old(closed) ==> !closed && segment.scannerCount == old(segment.scannerCount)
      ensures !old(closed) ==> (r <==> exists k :: 0 <= k < |segment.cells| && Visible(segment.cells[k], readPoint))
      ensures !old(closed) && r ==> current.Some? && 0 < pos && LastVisibleRow(segment.cells, readPoint, pos - 1)
    {
      if closed {
        return false;
      }
      var higherCell := if |segment.cells| == 0 then None else Some(segment.cells[|segment.cells| - 1]);
      if higherCell.None? {
        return false;
      }
      var firstCellOnLastRow := FirstOnRow(higherCell.value.key.row);
      var found := Seek(Some(firstCellOnLastRow));
      if found {
        LastRowFromSeek(segment.cells, readPoint, pos - 1);
        assert Visible(segment.cells[pos - 1], readPoint);
        return true;
      }
      LastRowHidden(segment.cells, readPoint);
      LastRowFromPrevious(segment.cells, readPoint);
      r := SeekToPreviousRow(higherCell.value);
      if r {
        assert Visible(segment.cells[pos - 1], readPoint);
      }
    }

    /** close: the first call releases the segment; later calls do nothing. */
    method Close()
      modifies this, segment
      ensures closed
      ensures segment.scannerCount == old(segment.scannerCount) - (if old(closed) then 0 else 1)
      ensures pos == old(pos) && current == old(current) && last == old(last)
      ensures stopSkippingKVsIfNextRow == old(stopSkippingKVsIfNextRow) && stopSkippingKVsRow == old(stopSkippingKVsRow)
    {
      if closed {
        return;
      }
      segment.DecScannerCount();
      closed := true;
    }
  }
}
