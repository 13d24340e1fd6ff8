/**
 * getMidpoint: the key the block index records for a new data block, built
 * from the last cell of the previous block and the first cell of the new one.
 */
module Separator {
  import opened Bytes
  import opened Midpoint
  import opened Cells
  import opened Errors

  /**
   * Try rows, then families, then qualifiers; the first component that differs
   * gives a synthetic first-on-row(-family, -column) key. A null right cell
   * throws, a null left cell or a meta-table comparator returns right unchanged,
   * and so does the case where all three components are identical.
   */
  function GetMidpoint(comparator: CellComparator, left: Option<Cell>, right: Option<Cell>): Result<Cell> {
    if right.None? then Err(IllegalArgument)
    else if left.None? then Ok(right.value)
    else if comparator.MetaComparator? then Ok(right.value)
    else
      var l, r := left.value, right.value;
      match MinimumMidpoint(l.key.row, r.key.row)
      case LeftSortsAfter => Err(IllegalArgument)
      case Between(midRow) => Ok(FirstOnRow(midRow))
      case Same =>
        match MinimumMidpoint(l.key.family, r.key.family)
        case LeftSortsAfter => Err(IllegalArgument)
        case Between(midFamily) => Ok(FirstOnRowFamily(r, midFamily))
        case Same =>
          match MinimumMidpoint(l.key.qualifier, r.key.qualifier)
          case LeftSortsAfter => Err(IllegalArgument)
          case Between(midQualifier) => Ok(FirstOnRowCol(r, midQualifier))
          case Same => Ok(r)
  }

  /** The three short-circuits taken before any bytes are compared. */
  lemma GetMidpointShortCircuits(comparator: CellComparator, left: Option<Cell>, right: Option<Cell>)
    ensures right.None? ==> GetMidpoint(comparator, left, right) == Err(IllegalArgument)
    ensures right.Some? && left.None? ==> GetMidpoint(comparator, left, right) == Ok(right.value)
    ensures right.Some? && comparator.MetaComparator? ==> GetMidpoint(comparator, left, right) == Ok(right.value)
  {
  }

  /**
   * The component the separator comes from: the first of row, family,
   * qualifier on which left and right differ, or right itself when none does.
   */
  lemma GetMidpointComponentOrder(left: Cell, right: Cell)
    requires LessEq(left.key.row, right.key.row)
    requires left.key.row == right.key.row ==> LessEq(left.key.family, right.key.family)
    requires (left.key.row == right.key.row && left.key.family == right.key.family)
               ==> LessEq(left.key.qualifier, right.key.qualifier)
    ensures var m := GetMidpoint(InnerStoreComparator, Some(left), Some(right));
      && m.Ok?
      && (left.key.row != right.key.row ==>
            m.value == FirstOnRow(MinimumMidpoint(left.key.row, right.key.row).mid))
      && (left.key.row == right.key.row && left.key.family != right.key.family ==>
            m.value == FirstOnRowFamily(right, MinimumMidpoint(left.key.family, right.key.family).mid))
      && ((left.key.row == right.key.row && left.key.family == right.key.family
           && left.key.qualifier != right.key.qualifier) ==>
            m.value == FirstOnRowCol(right, MinimumMidpoint(left.key.qualifier, right.key.qualifier).mid))
      && ((left.key.row == right.key.row && left.key.family == right.key.family
           && left.key.qualifier == right.key.qualifier) ==> m.value == right)
  {
    MidpointSameIff(left.key.row, right.key.row);
    MidpointLeftSortsAfterIff(left.key.row, right.key.row);
    MidpointSameIff(left.key.family, right.key.family);
    MidpointLeftSortsAfterIff(left.key.family, right.key.family);
    MidpointSameIff(left.key.qualifier, right.key.qualifier);
    MidpointLeftSortsAfterIff(left.key.qualifier, right.key.qualifier);
  }

  /**
   * For cells given in key order the separator never fails, sorts strictly
   * after left (when left sorts strictly before right) and no later than right,
   * whichever comparator is in force. This is what lets a reader that seeks to
   * a key land in the right block.
   */
  lemma GetMidpointSeparates(comparator: CellComparator, left: Cell, right: Cell)
    requires KeyLessEq(left.key, right.key)
    ensures GetMidpoint(comparator, Some(left), Some(right)).Ok?
    ensures var m := GetMidpoint(comparator, Some(left), Some(right)).value;
      && KeyLessEq(m.key, right.key)
      && (KeyLess(left.key, right.key) ==> KeyLess(left.key, m.key))
  {
    var l, r := left.key, right.key;
    if comparator.InnerStoreComparator? {
      MidpointSameIff(l.row, r.row);
      MidpointLeftSortsAfterIff(l.row, r.row);
      match MinimumMidpoint(l.row, r.row)
      case LeftSortsAfter =>
      case Between(midRow) =>
        MidpointBetween(l.row, r.row);
        FirstOnRowBefore(midRow, right);
      case Same =>
        MidpointSameIff(l.family, r.family);
        MidpointLeftSortsAfterIff(l.family, r.family);
        match MinimumMidpoint(l.family, r.family)
        case LeftSortsAfter =>
        case Between(midFamily) =>
          MidpointBetween(l.family, r.family);
          if midFamily == r.family {
            EmptyIsLeast(r.qualifier);
          }
        case Same =>
          MidpointSameIff(l.qualifier, r.qualifier);
          MidpointLeftSortsAfterIff(l.qualifier, r.qualifier);
          match MinimumMidpoint(l.qualifier, r.qualifier)
          case LeftSortsAfter =>
          case Between(midQualifier) =>
            MidpointBetween(l.qualifier, r.qualifier);
          case Same =>
    }
  }

  /** A first-on-row key built from a row no later than right's row does not sort after right. */
  lemma FirstOnRowBefore(row: Bytes, right: Cell)
    requires LessEq(row, right.key.row)
    ensures KeyLessEq(FirstOnRow(row).key, right.key)
  {
    if row == right.key.row {
      FirstOnRowIsFirst(right);
    }
  }

  /**
   * The separator's shortened component is never longer than right's, and at
   * most one byte longer than left's.
   */
  lemma MidpointNoLongerThanRight(left: Bytes, right: Bytes)
    requires MinimumMidpoint(left, right).Between?
    ensures |MinimumMidpoint(left, right).mid| <= |right|
    ensures |MinimumMidpoint(left, right).mid| <= |left| + 1
  {
    MidpointShape(left, right);
  }
}
