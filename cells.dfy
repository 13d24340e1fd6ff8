/**
 * Cells (key-value records) and the order the cell comparator puts them in:
 * row, family and qualifier ascending as unsigned bytes, then timestamp and
 * type descending, and, for the full comparison, sequence id descending.
 */
module Cells {
  import opened Bytes

  /** A Java long. */
  type Long = x: int | -0x8000_0000_0000_0000 <= x < 0x8000_0000_0000_0000

  /** HConstants.LATEST_TIMESTAMP, Long.MAX_VALUE: the newest possible version. */
  const LATEST_TIMESTAMP: Long := 0x7FFF_FFFF_FFFF_FFFF

  /** KeyValue.Type codes. */
  const TYPE_MINIMUM: Byte := 0
  const TYPE_PUT: Byte := 4
  const TYPE_DELETE: Byte := 8
  const TYPE_DELETE_COLUMN: Byte := 12
  const TYPE_DELETE_FAMILY: Byte := 14
  const TYPE_MAXIMUM: Byte := 255

  /** The key part of a cell, the part the writer compares and indexes. */
  datatype Key = Key(row: Bytes, family: Bytes, qualifier: Bytes, timestamp: Long, typeByte: Byte)

  datatype Cell = Cell(key: Key, value: Bytes, tags: Bytes, sequenceId: Long)

  /** The two comparator classes the writer tells apart. */
  datatype CellComparator = InnerStoreComparator | MetaComparator

  /**
   * A cell that can be stored: the Maximum type code only appears on the
   * synthetic "first on row" search keys built below.
   */
  predicate IsReal(c: Cell) {
    c.key.typeByte != TYPE_MAXIMUM
  }

  /** Key comparison, ignoring the sequence id (compareKeyIgnoresMvcc). */
  function CompareKeys(a: Key, b: Key): (r: int)
    ensures -1 <= r <= 1
    ensures r == 0 <==> a == b
  {
    var rc := Compare(a.row, b.row);
    if rc != 0 then rc
    else
      var fc := Compare(a.family, b.family);
      if fc != 0 then fc
      else
        var qc := Compare(a.qualifier, b.qualifier);
        if qc != 0 then qc
        else if a.timestamp > b.timestamp then -1
        else if a.timestamp < b.timestamp then 1
        else if a.typeByte > b.typeByte then -1
        else if a.typeByte < b.typeByte then 1
        else 0
  }

  predicate KeyLess(a: Key, b: Key) {
    CompareKeys(a, b) < 0
  }

  predicate KeyLessEq(a: Key, b: Key) {
    CompareKeys(a, b) <= 0
  }

  /** The full comparison a segment is sorted by: the key, then newer sequence ids first. */
  function CompareCells(a: Cell, b: Cell): (r: int)
    ensures -1 <= r <= 1
    ensures r == 0 <==> a.key == b.key && a.sequenceId == b.sequenceId
  {
    var kc := CompareKeys(a.key, b.key);
    if kc != 0 then kc
    else if a.sequenceId > b.sequenceId then -1
    else if a.sequenceId < b.sequenceId then 1
    else 0
  }

  predicate CellLess(a: Cell, b: Cell) {
    CompareCells(a, b) < 0
  }

  /** Rows compare as bytes (CellComparator.compareRows). */
  function CompareRows(a: Cell, b: Cell): int {
    Compare(a.key.row, b.key.row)
  }

  /** PrivateCellUtil.createFirstOnRow: sorts before every stored cell of the row. */
  function FirstOnRow(row: Bytes): Cell {
    Cell(Key(row, [], [], LATEST_TIMESTAMP, TYPE_MAXIMUM), [], [], 0)
  }

  /** PrivateCellUtil.createFirstOnRowFamily: right's row with the given family. */
  function FirstOnRowFamily(right: Cell, family: Bytes): Cell {
    Cell(Key(right.key.row, family, [], LATEST_TIMESTAMP, TYPE_MAXIMUM), [], [], 0)
  }

  /** PrivateCellUtil.createFirstOnRowCol: right's row and family with the given qualifier. */
  function FirstOnRowCol(right: Cell, qualifier: Bytes): Cell {
    Cell(Key(right.key.row, right.key.family, qualifier, LATEST_TIMESTAMP, TYPE_MAXIMUM), [], [], 0)
  }

  /** KeyValue key length: 2-byte row length, 1-byte family length, 8-byte timestamp, 1-byte type. */
  function KeyLength(k: Key): nat {
    12 + |k.row| + |k.family| + |k.qualifier|
  }

  /** Serialized KeyValue size: 4-byte key and value lengths, key, value, optional tags. */
  function SerializedSize(c: Cell): nat {
    8 + KeyLength(c.key) + |c.value| + (if |c.tags| > 0 then 2 + |c.tags| else 0)
  }

  /** PrivateCellUtil.estimatedSerializedSizeOf: the serialized size plus a length int. */
  function EstimatedSerializedSize(c: Cell): nat {
    SerializedSize(c) + 4
  }

  // ---- the comparator is a total order ----

  lemma CompareKeysAntisymmetric(a: Key, b: Key)
    ensures CompareKeys(a, b) == -CompareKeys(b, a)
  {
    CompareAntisymmetric(a.row, b.row);
    CompareAntisymmetric(a.family, b.family);
    CompareAntisymmetric(a.qualifier, b.qualifier);
  }

  /** Key order is transitive, and strict when either step is. */
  lemma CompareKeysTransitive(a: Key, b: Key, c: Key)
    requires CompareKeys(a, b) <= 0 && CompareKeys(b, c) <= 0
    ensures CompareKeys(a, c) <= 0
    ensures CompareKeys(a, b) < 0 || CompareKeys(b, c) < 0 ==> CompareKeys(a, c) < 0
  {
    CompareTransitive(a.row, b.row, c.row);
    if a.row == b.row == c.row {
      CompareTransitive(a.family, b.family, c.family);
      if a.family == b.family == c.family {
        CompareTransitive(a.qualifier, b.qualifier, c.qualifier);
      }
    }
  }

  lemma CompareCellsAntisymmetric(a: Cell, b: Cell)
    ensures CompareCells(a, b) == -CompareCells(b, a)
  {
    CompareKeysAntisymmetric(a.key, b.key);
  }

  lemma CompareCellsTransitive(a: Cell, b: Cell, c: Cell)
    requires CompareCells(a, b) <= 0 && CompareCells(b, c) <= 0
    ensures CompareCells(a, c) <= 0
    ensures CompareCells(a, b) < 0 || CompareCells(b, c) < 0 ==> CompareCells(a, c) < 0
  {
    CompareKeysAntisymmetric(a.key, b.key);
    CompareKeysAntisymmetric(b.key, c.key);
    CompareKeysTransitive(a.key, b.key, c.key);
  }

  /**
   * The first-on-row key of a row sorts after every cell of an earlier row and
   * before every stored cell of that row or a later one: a stored cell sorts
   * before it exactly when its row is smaller.
   */
  lemma FirstOnRowSplitsRows(c: Cell, row: Bytes)
    requires IsReal(c)
    ensures CellLess(c, FirstOnRow(row)) <==> Less(c.key.row, row)
    ensures !CellLess(c, FirstOnRow(row)) ==> CompareCells(c, FirstOnRow(row)) > 0
  {
    CompareAntisymmetric(c.key.row, row);
    if c.key.row == row {
      EmptyIsLeast(c.key.family);
      EmptyIsLeast(c.key.qualifier);
    }
  }

  /** The first-on-row key of a cell's own row never sorts after the cell. */
  lemma FirstOnRowIsFirst(c: Cell)
    ensures KeyLessEq(FirstOnRow(c.key.row).key, c.key)
  {
    EmptyIsLeast(c.key.family);
    EmptyIsLeast(c.key.qualifier);
  }
}
