/**
 * The values the HFile writer keeps and emits, and the functions that say
 * what its running aggregates, its meta-block name list and its data block
 * index should be, in terms of the cells appended so far.
 */
module WriterSpec {
  import opened Bytes
  import opened Cells
  import opened Blocks
  import opened Context
  import opened Errors
  import opened Separator

  /** UNSET: the first and last data block offsets before any data block is written. */
  const UNSET: int := -1

  /** getMajorVersion. */
  const MAJOR_VERSION: int := 3

  /** HFileReaderImpl.MAX_MINOR_VERSION, the minor version getMinorVersion reports. */
  const MAX_MINOR_VERSION: int := 3

  /** FixedFileTrailer's serialized size for major version 3. */
  const TRAILER_SIZE: nat := 4096

  /** KEY_VALUE_VER_WITH_MEMSTORE. */
  const KEY_VALUE_VER_WITH_MEMSTORE: int := 1

  /** A Java int. */
  type Int32 = x: int | -0x8000_0000 <= x < 0x8000_0000

  // ---- records the writer keeps ----

  /** One data block index entry: the separator key, the block's offset and its on-disk size. */
  datatype DataIndexEntry = DataIndexEntry(key: Key, offset: nat, onDiskSize: nat)

  /** One meta block index entry: the block's name, offset and on-disk size. */
  datatype MetaIndexEntry = MetaIndexEntry(name: Bytes, offset: nat, onDiskSize: nat)

  /** The first and last cell of a data block that has been written out. */
  datatype SealedBlock = SealedBlock(first: Cell, last: Cell)

  /** A BloomFilterWriter: its key count and the bytes its meta and (optional) data writers produce. */
  datatype BloomWriter = BloomWriter(keyCount: int, metaSize: nat, dataSize: Option<nat>)

  /** A BlockWritable queued for the load-on-open section. */
  datatype LoadOnOpenBlock = LoadOnOpenBlock(blockType: BlockType, size: nat)

  /**
   * The file-info keys. The named ones are the reserved keys finishFileInfo
   * sets (all under the "hfile." prefix); everything else is Named.
   */
  datatype InfoKey =
    | LastKey
    | AvgKeyLen
    | AvgValueLen
    | CreateTimeTs
    | KeyOfBiggestCell
    | LenOfBiggestCell
    | MaxTagsLen
    | TagsCompressed
    | Named(name: Bytes)

  /** A file-info value, by the Java type it was converted from. */
  datatype InfoValue =
    | IntValue(i: int)
    | LongValue(l: int)
    | BoolValue(b: bool)
    | KeyBytes(key: Key)
    | RawValue(bytes: Bytes)

  /** The fields of FixedFileTrailer the writer sets. */
  datatype Trailer = Trailer(
    majorVersion: int,
    minorVersion: int,
    fileInfoOffset: int,
    loadOnOpenOffset: int,
    firstDataBlockOffset: int,
    lastDataBlockOffset: int,
    comparator: CellComparator,
    dataIndexCount: int,
    metaIndexCount: int,
    totalUncompressedBytes: int,
    entryCount: int,
    compressionCodec: CompressionAlgorithm,
    hasEncryptionKey: bool)

  // ---- byte-string keys ----

  /** HFileInfo.RESERVED_PREFIX: the bytes of "hfile.". */
  const RESERVED_PREFIX: Bytes := [104, 102, 105, 108, 101, 46]

  /** MAX_MEMSTORE_TS_KEY: the bytes of "MAX_MEMSTORE_TS_KEY". */
  const MAX_MEMSTORE_TS_KEY: Bytes := [77, 65, 88, 95, 77, 69, 77, 83, 84, 79, 82, 69, 95, 84, 83, 95, 75, 69, 89]

  /** KEY_VALUE_VERSION: the bytes of "KEY_VALUE_VERSION". */
  const KEY_VALUE_VERSION: Bytes := [75, 69, 89, 95, 86, 65, 76, 85, 69, 95, 86, 69, 82, 83, 73, 79, 78]

  predicate HasPrefix(s: Bytes, prefix: Bytes) {
    |prefix| <= |s| && s[..|prefix|] == prefix
  }

  /** The two keys close() adds through appendFileInfo are outside the reserved prefix. */
  lemma WriterKeysNotReserved()
    ensures !HasPrefix(MAX_MEMSTORE_TS_KEY, RESERVED_PREFIX)
    ensures !HasPrefix(KEY_VALUE_VERSION, RESERVED_PREFIX)
  {
    assert RESERVED_PREFIX[0] == 104;
    assert MAX_MEMSTORE_TS_KEY[0] == 77;
    assert KEY_VALUE_VERSION[0] == 75;
  }

  // ---- Java int arithmetic ----

  /** A (int) cast of a long: keep the low 32 bits, as two's complement. */
  function ToInt32(x: int): Int32 {
    ((x + 0x8000_0000) % 0x1_0000_0000) - 0x8000_0000
  }

  /** The average finishFileInfo records: 0 for no entries, else the truncated quotient cast to int. */
  function AverageAsInt(total: nat, count: int): Int32 {
    if count <= 0 then 0 else ToInt32(total / count)
  }

  /** The cast leaves a value that already fits in an int alone. */
  lemma ToInt32KeepsSmallValues(x: int)
    requires -0x8000_0000 <= x < 0x8000_0000
    ensures ToInt32(x) == x
  {
  }

  /** The average is the truncated quotient whenever that quotient fits in an int. */
  lemma AverageWhenItFits(total: nat, count: int)
    requires count > 0 && total / count < 0x8000_0000
    ensures AverageAsInt(total, count) == total / count
    ensures AverageAsInt(total, count) * count <= total < (AverageAsInt(total, count) + 1) * count
  {
    ToInt32KeepsSmallValues(total / count);
  }

  // ---- aggregates over the appended cells ----

  /** The sum of the cells' key lengths (estimatedSerializedSizeOfKey). */
  function TotalKeyLength(cells: seq<Cell>): nat {
    if |cells| == 0 then 0 else TotalKeyLength(cells[..|cells| - 1]) + KeyLength(cells[|cells| - 1].key)
  }

  /** The sum of the cells' value lengths. */
  function TotalValueLength(cells: seq<Cell>): nat {
    if |cells| == 0 then 0 else TotalValueLength(cells[..|cells| - 1]) + |cells[|cells| - 1].value|
  }

  /** The largest estimated serialized size of a cell, 0 for none. */
  function LenOfBiggest(cells: seq<Cell>): nat {
    if |cells| == 0 then 0
    else
      var before := LenOfBiggest(cells[..|cells| - 1]);
      var size := EstimatedSerializedSize(cells[|cells| - 1]);
      if before < size then size else before
  }

  /** The key of the first cell to reach LenOfBiggest (a later cell replaces it only when strictly bigger). */
  function KeyOfBiggest(cells: seq<Cell>): Option<Key> {
    if |cells| == 0 then None
    else if LenOfBiggest(cells[..|cells| - 1]) < EstimatedSerializedSize(cells[|cells| - 1]) then Some(cells[|cells| - 1].key)
    else KeyOfBiggest(cells[..|cells| - 1])
  }

  /** The largest sequence id, or 0 when that is larger. */
  function MaxSequenceId(cells: seq<Cell>): int {
    if |cells| == 0 then 0
    else
      var before := MaxSequenceId(cells[..|cells| - 1]);
      if before < cells[|cells| - 1].sequenceId then cells[|cells| - 1].sequenceId else before
  }

  /** The largest tags length, 0 for none. */
  function MaxTagsLength(cells: seq<Cell>): nat {
    if |cells| == 0 then 0
    else
      var before := MaxTagsLength(cells[..|cells| - 1]);
      if before < |cells[|cells| - 1].tags| then |cells[|cells| - 1].tags| else before
  }

  /** The running statistics append keeps and finishFileInfo writes out. */
  datatype CellStats = CellStats(
    entryCount: nat,
    totalKeyLength: nat,
    totalValueLength: nat,
    lenOfBiggestCell: nat,
    keyOfBiggestCell: Option<Key>,
    maxMemstoreTS: int,
    maxTagsLength: nat)
  {
    /**
     * append's bookkeeping for one more cell: one more entry, its key and
     * value lengths added, the biggest cell replaced only by a strictly
     * bigger one, the maxima raised.
     */
    function Add(c: Cell): CellStats {
      var size := EstimatedSerializedSize(c);
      CellStats(
        entryCount + 1,
        totalKeyLength + KeyLength(c.key),
        totalValueLength + |c.value|,
        if lenOfBiggestCell < size then size else lenOfBiggestCell,
        if lenOfBiggestCell < size then Some(c.key) else keyOfBiggestCell,
        if maxMemstoreTS < c.sequenceId then c.sequenceId else maxMemstoreTS,
        if |c.tags| > maxTagsLength then |c.tags| else maxTagsLength)
    }
  }

  /** The statistics of a sequence of cells, each field the aggregate above. */
  function StatsOf(cells: seq<Cell>): CellStats {
    CellStats(|cells|, TotalKeyLength(cells), TotalValueLength(cells), LenOfBiggest(cells),
              KeyOfBiggest(cells), MaxSequenceId(cells), MaxTagsLength(cells))
  }

  /** Counting one more cell keeps the statistics those of all the cells appended. */
  lemma AddCountsCell(cells: seq<Cell>, c: Cell)
    ensures StatsOf(cells).Add(c) == StatsOf(cells + [c])
  {
    AppendStats(cells, c);
  }

  /** Cells in the order the writer accepts them: keys never decrease. */
  ghost predicate SortedByKey(cells: seq<Cell>)
    decreases |cells|
  {
    |cells| > 1 ==>
      var n := |cells| - 1;
      SortedByKey(cells[..n]) && KeyLessEq(cells[n - 1].key, cells[n].key)
  }

  /** How each aggregate moves when one more cell is appended. */
  lemma AppendStats(cells: seq<Cell>, c: Cell)
    ensures TotalKeyLength(cells + [c]) == TotalKeyLength(cells) + KeyLength(c.key)
    ensures TotalValueLength(cells + [c]) == TotalValueLength(cells) + |c.value|
    ensures LenOfBiggest(cells + [c]) ==
              (if LenOfBiggest(cells) < EstimatedSerializedSize(c) then EstimatedSerializedSize(c) else LenOfBiggest(cells))
    ensures KeyOfBiggest(cells + [c]) ==
              (if LenOfBiggest(cells) < EstimatedSerializedSize(c) then Some(c.key) else KeyOfBiggest(cells))
    ensures MaxSequenceId(cells + [c]) ==
              (if MaxSequenceId(cells) < c.sequenceId then c.sequenceId else MaxSequenceId(cells))
    ensures MaxTagsLength(cells + [c]) == (if MaxTagsLength(cells) < |c.tags| then |c.tags| else MaxTagsLength(cells))
  {
    assert (cells + [c])[..|cells|] == cells;
  }

  /** Cell i has the biggest size, and every cell before it is strictly smaller. */
  predicate IsFirstBiggest(cells: seq<Cell>, i: nat)
    requires i < |cells|
  {
    && EstimatedSerializedSize(cells[i]) == LenOfBiggest(cells)
    && forall j :: 0 <= j < i ==> EstimatedSerializedSize(cells[j]) < LenOfBiggest(cells)
  }

  /**
   * The biggest-cell length bounds every cell's size and is reached, and the
   * recorded key is that of the first cell reaching it.
   */
  lemma {:induction false} BiggestIsFirstMaximum(cells: seq<Cell>)
    ensures forall i :: 0 <= i < |cells| ==> EstimatedSerializedSize(cells[i]) <= LenOfBiggest(cells)
    ensures |cells| == 0 <==> KeyOfBiggest(cells).None?
    ensures |cells| > 0 ==>
      exists i :: 0 <= i < |cells| && IsFirstBiggest(cells, i) && KeyOfBiggest(cells) == Some(cells[i].key)
  {
    if |cells| > 0 {
      var init := cells[..|cells| - 1];
      var c := cells[|cells| - 1];
      BiggestIsFirstMaximum(init);
      assert forall i :: 0 <= i < |init| ==> cells[i] == init[i];
      if LenOfBiggest(init) < EstimatedSerializedSize(c) {
        assert KeyOfBiggest(cells) == Some(cells[|cells| - 1].key);
      } else {
        var i :| 0 <= i < |init| && IsFirstBiggest(init, i) && KeyOfBiggest(init) == Some(init[i].key);
        assert cells[i] == init[i];
      }
    }
  }

  /** The recorded maximum sequence id bounds every cell's and is either 0 or one of them. */
  lemma {:induction false} MaxSequenceIdIsMaximum(cells: seq<Cell>)
    ensures MaxSequenceId(cells) >= 0
    ensures forall i :: 0 <= i < |cells| ==> cells[i].sequenceId <= MaxSequenceId(cells)
    ensures MaxSequenceId(cells) == 0 || exists i :: 0 <= i < |cells| && cells[i].sequenceId == MaxSequenceId(cells)
  {
    if |cells| > 0 {
      var init := cells[..|cells| - 1];
      MaxSequenceIdIsMaximum(init);
      assert forall i :: 0 <= i < |init| ==> cells[i] == init[i];
      if MaxSequenceId(init) != 0 && MaxSequenceId(init) >= cells[|cells| - 1].sequenceId {
        var i :| 0 <= i < |init| && init[i].sequenceId == MaxSequenceId(init);
        assert cells[i] == init[i];
      }
    }
  }

  /** The recorded maximum tags length bounds every cell's and is either 0 or one of them. */
  lemma {:induction false} MaxTagsLengthIsMaximum(cells: seq<Cell>)
    ensures forall i :: 0 <= i < |cells| ==> |cells[i].tags| <= MaxTagsLength(cells)
    ensures MaxTagsLength(cells) == 0 || exists i :: 0 <= i < |cells| && |cells[i].tags| == MaxTagsLength(cells)
  {
    if |cells| > 0 {
      var init := cells[..|cells| - 1];
      MaxTagsLengthIsMaximum(init);
      assert forall i :: 0 <= i < |init| ==> cells[i] == init[i];
      if MaxTagsLength(init) != 0 && MaxTagsLength(init) >= |cells[|cells| - 1].tags| {
        var i :| 0 <= i < |init| && |init[i].tags| == MaxTagsLength(init);
        assert cells[i] == init[i];
      }
    }
  }

  /** Every key is at least 12 bytes long, so the key total is at least 12 per cell. */
  lemma {:induction false} TotalKeyLengthLowerBound(cells: seq<Cell>)
    ensures TotalKeyLength(cells) >= 12 * |cells|
  {
    if |cells| > 0 {
      TotalKeyLengthLowerBound(cells[..|cells| - 1]);
    }
  }

  /** Key order is transitive along a sorted sequence. */
  lemma {:induction false} SortedByKeyTransitive(cells: seq<Cell>, i: nat, j: nat)
    requires SortedByKey(cells)
    requires i <= j < |cells|
    ensures KeyLessEq(cells[i].key, cells[j].key)
    decreases |cells|
  {
    var n := |cells| - 1;
    if i == j {
      CompareKeysAntisymmetric(cells[i].key, cells[i].key);
    } else if j < n {
      SortedByKeyTransitive(cells[..n], i, j);
      assert cells[..n][i] == cells[i] && cells[..n][j] == cells[j];
    } else {
      SortedByKeyTransitive(cells[..n], i, n - 1);
      assert cells[..n][i] == cells[i] && cells[..n][n - 1] == cells[n - 1];
      CompareKeysTransitive(cells[i].key, cells[n - 1].key, cells[n].key);
    }
  }

  /** A cell whose key is not below the last one keeps the sequence sorted. */
  lemma SortedAppend(cells: seq<Cell>, c: Cell)
    requires SortedByKey(cells)
    requires |cells| > 0 ==> KeyLessEq(cells[|cells| - 1].key, c.key)
    ensures SortedByKey(cells + [c])
  {
    assert (cells + [c])[..|cells|] == cells;
  }

  // ---- what close records ----

  /**
   * What close's file info holds, given the last cell appended and the
   * statistics of the cells (StatsOf of the cells, in the writer): the last
   * cell's key exactly when there is one, the average key and value lengths,
   * the creation time, the biggest cell's key and size exactly when there is
   * a biggest cell, the largest sequence id and the key-value version when
   * MVCC versions are kept, and the tags entries exactly when tags are.
   */
  ghost predicate InfoRecords(info: map<InfoKey, InfoValue>, last: Option<Cell>, stats: CellStats, context: HFileContext) {
    && (LastKey in info <==> last.Some?)
    && (last.Some? ==> info[LastKey] == KeyBytes(last.value.key))
    && AvgKeyLen in info && info[AvgKeyLen] == IntValue(AverageAsInt(stats.totalKeyLength, stats.entryCount))
    && AvgValueLen in info && info[AvgValueLen] == IntValue(AverageAsInt(stats.totalValueLength, stats.entryCount))
    && CreateTimeTs in info && info[CreateTimeTs] == LongValue(context.fileCreateTime)
    && (KeyOfBiggestCell in info <==> stats.keyOfBiggestCell.Some?)
    && (stats.keyOfBiggestCell.Some? ==>
          && info[KeyOfBiggestCell] == KeyBytes(stats.keyOfBiggestCell.value)
          && LenOfBiggestCell in info && info[LenOfBiggestCell] == LongValue(stats.lenOfBiggestCell))
    && (context.includesMvcc ==>
          && Named(MAX_MEMSTORE_TS_KEY) in info && info[Named(MAX_MEMSTORE_TS_KEY)] == LongValue(stats.maxMemstoreTS)
          && Named(KEY_VALUE_VERSION) in info && info[Named(KEY_VALUE_VERSION)] == IntValue(KEY_VALUE_VER_WITH_MEMSTORE))
    && (MaxTagsLen in info <==> context.includesTags)
    && (context.includesTags ==>
          && info[MaxTagsLen] == IntValue(stats.maxTagsLength)
          && TagsCompressed in info
          && info[TagsCompressed] == BoolValue(context.encoding != NoEncoding && context.compressTags))
  }

  /** The uncompressed bytes, header included, of a block whose payload is the given number of bytes. */
  function BlockBytes(codec: Codec, payload: nat): nat {
    codec.headerSize + payload
  }

  /** The uncompressed bytes of the meta blocks with these contents, one block each. */
  function MetaBytes(codec: Codec, contents: seq<Bytes>): nat {
    if |contents| == 0 then 0
    else MetaBytes(codec, contents[..|contents| - 1]) + BlockBytes(codec, |contents[|contents| - 1]|)
  }

  /** The uncompressed bytes of these load-on-open blocks, one block each. */
  function LoadOnOpenBytes(codec: Codec, blocks: seq<LoadOnOpenBlock>): nat {
    if |blocks| == 0 then 0
    else LoadOnOpenBytes(codec, blocks[..|blocks| - 1]) + BlockBytes(codec, blocks[|blocks| - 1].size)
  }

  // ---- the data block index ----

  /**
   * The index entries and the blocks they describe, as the writer keeps
   * them: each key sorts no later than its block's first cell, which sorts no
   * later than the block's last cell, which sorts before the next key.
   */
  ghost predicate SeparatesBlocks(keys: seq<DataIndexEntry>, blocks: seq<SealedBlock>)
    decreases |blocks|
  {
    && |keys| == |blocks|
    && (|blocks| > 0 ==>
          var n := |blocks| - 1;
          && SeparatesBlocks(keys[..n], blocks[..n])
          && KeyLessEq(keys[n].key, blocks[n].first.key) && KeyLessEq(blocks[n].first.key, blocks[n].last.key)
          && (n > 0 ==> KeyLess(blocks[n - 1].last.key, keys[n].key)))
  }

  /**
   * The separator keys of a data block index strictly increase: each sorts no
   * later than its block's first cell, which sorts no later than the block's
   * last cell, which sorts before the next separator.
   */
  lemma {:induction false} SeparatorsIncrease(keys: seq<DataIndexEntry>, blocks: seq<SealedBlock>, i: nat, j: nat)
    requires SeparatesBlocks(keys, blocks)
    requires i < j < |keys|
    ensures KeyLess(keys[i].key, keys[j].key)
  {
    SeparatorStep(keys, blocks, j);
    if i < j - 1 {
      SeparatorsIncrease(keys, blocks, i, j - 1);
      KeyLessTransitive(keys[i].key, keys[j - 1].key, keys[j].key);
    }
  }

  /** Each block's key, first cell and last cell are in order, and the last cell sorts before the next key. */
  lemma {:induction false} SeparatesAt(keys: seq<DataIndexEntry>, blocks: seq<SealedBlock>, j: nat)
    requires SeparatesBlocks(keys, blocks)
    requires j < |keys|
    ensures KeyLessEq(keys[j].key, blocks[j].first.key) && KeyLessEq(blocks[j].first.key, blocks[j].last.key)
    ensures j > 0 ==> KeyLess(blocks[j - 1].last.key, keys[j].key)
    decreases |keys|
  {
    var n := |keys| - 1;
    if j < n {
      SeparatesAt(keys[..n], blocks[..n], j);
      assert keys[..n][j] == keys[j] && blocks[..n][j] == blocks[j];
      if j > 0 {
        assert blocks[..n][j - 1] == blocks[j - 1];
      }
    }
  }

  /** Each separator sorts before the next one. */
  lemma SeparatorStep(keys: seq<DataIndexEntry>, blocks: seq<SealedBlock>, j: nat)
    requires SeparatesBlocks(keys, blocks)
    requires 0 < j < |keys|
    ensures KeyLess(keys[j - 1].key, keys[j].key)
  {
    var p := j - 1;
    SeparatesAt(keys, blocks, p);
    SeparatesAt(keys, blocks, j);
    KeyChain(keys[p].key, blocks[p].first.key, blocks[p].last.key, keys[j].key);
  }

  /**
   * Sealing one more block keeps the index separating: its key sorts no
   * later than its first cell and after the previous block's last cell.
   */
  lemma SeparatesBlocksAppend(keys: seq<DataIndexEntry>, blocks: seq<SealedBlock>, k: DataIndexEntry, b: SealedBlock)
    requires SeparatesBlocks(keys, blocks)
    requires KeyLessEq(k.key, b.first.key) && KeyLessEq(b.first.key, b.last.key)
    requires |blocks| > 0 ==> KeyLess(blocks[|blocks| - 1].last.key, k.key)
    ensures SeparatesBlocks(keys + [k], blocks + [b])
  {
    assert (keys + [k])[..|keys|] == keys;
    assert (blocks + [b])[..|blocks|] == blocks;
  }

  /**
   * finishBlock's index entry: for a block whose first cell follows the last
   * cell of the previous block, getMidpoint succeeds, and the entry it keys
   * keeps the index separating.
   */
  lemma SealKeepsSeparation(comparator: CellComparator, keys: seq<DataIndexEntry>, blocks: seq<SealedBlock>,
                            previous: Option<Cell>, first: Cell, last: Cell, offset: nat, size: nat)
    requires SeparatesBlocks(keys, blocks)
    requires previous == (if |blocks| == 0 then None else Some(blocks[|blocks| - 1].last))
    requires KeyLessEq(first.key, last.key)
    requires previous.Some? ==> KeyLess(previous.value.key, first.key)
    ensures GetMidpoint(comparator, previous, Some(first)).Ok?
    ensures SeparatesBlocks(keys + [DataIndexEntry(GetMidpoint(comparator, previous, Some(first)).value.key, offset, size)],
                            blocks + [SealedBlock(first, last)])
  {
    if previous.Some? {
      GetMidpointSeparates(comparator, previous.value, first);
    } else {
      GetMidpointShortCircuits(comparator, previous, Some(first));
      CompareKeysAntisymmetric(first.key, first.key);
    }
    var m := GetMidpoint(comparator, previous, Some(first)).value;
    SeparatesBlocksAppend(keys, blocks, DataIndexEntry(m.key, offset, size), SealedBlock(first, last));
  }

  /**
   * Each index entry names a DATA block of the stream's block log, at the
   * log position recorded for it, and those positions increase.
   */
  ghost predicate IndexedOnLog(log: seq<Written>, at: seq<nat>, keys: seq<DataIndexEntry>)
    decreases |at|
  {
    && |at| == |keys|
    && (|at| > 0 ==>
          var n := |at| - 1;
          && IndexedOnLog(log, at[..n], keys[..n])
          && at[n] < |log| && log[at[n]] == Written(DataBlock, keys[n].offset, keys[n].onDiskSize)
          && (n > 0 ==> at[n - 1] < at[n]))
  }

  /** Entry i of an index on the log is the DATA block at log position at[i], and later entries sit later. */
  lemma {:induction false} IndexedOnLogAt(log: seq<Written>, at: seq<nat>, keys: seq<DataIndexEntry>, i: nat)
    requires IndexedOnLog(log, at, keys)
    requires i < |at|
    ensures at[i] < |log| && log[at[i]] == Written(DataBlock, keys[i].offset, keys[i].onDiskSize)
    ensures forall j :: i < j < |at| ==> at[i] < at[j]
    decreases |at|
  {
    var n := |at| - 1;
    if i < n {
      IndexedOnLogAt(log, at[..n], keys[..n], i);
      assert at[..n][i] == at[i] && keys[..n][i] == keys[i];
      forall j | i < j < |at|
        ensures at[i] < at[j]
      {
        if j < n {
          assert at[..n][j] == at[j];
        } else {
          IndexedOnLogAt(log, at[..n], keys[..n], n - 1);
          assert at[..n][n - 1] == at[n - 1];
        }
      }
    }
  }

  /** Writing more blocks after the indexed ones leaves the index pointing at the same blocks. */
  lemma {:induction false} IndexedOnLogExtends(log: seq<Written>, log': seq<Written>, at: seq<nat>, keys: seq<DataIndexEntry>)
    requires IndexedOnLog(log, at, keys)
    requires |log| <= |log'| && log'[..|log|] == log
    ensures IndexedOnLog(log', at, keys)
    decreases |at|
  {
    if |at| > 0 {
      var n := |at| - 1;
      IndexedOnLogExtends(log, log', at[..n], keys[..n]);
      assert log'[at[n]] == log'[..|log|][at[n]];
    }
  }

  /** Indexing the block just written, at the end of the log, keeps the index on the log. */
  lemma IndexedOnLogAppend(log: seq<Written>, at: seq<nat>, keys: seq<DataIndexEntry>, k: DataIndexEntry)
    requires IndexedOnLog(log, at, keys)
    ensures IndexedOnLog(log + [Written(DataBlock, k.offset, k.onDiskSize)], at + [|log|], keys + [k])
  {
    var log' := log + [Written(DataBlock, k.offset, k.onDiskSize)];
    assert log'[..|log|] == log;
    IndexedOnLogExtends(log, log', at, keys);
    assert (at + [|log|])[..|at|] == at;
    assert (keys + [k])[..|keys|] == keys;
    if |at| > 0 {
      IndexedOnLogAt(log, at, keys, |at| - 1);
    }
  }

  lemma KeyLessTransitive(a: Key, b: Key, c: Key)
    requires KeyLess(a, b) && KeyLess(b, c)
    ensures KeyLess(a, c)
  {
    CompareKeysTransitive(a, b, c);
  }

  /** a <= b <= c < d gives a < d. */
  lemma KeyChain(a: Key, b: Key, c: Key, d: Key)
    requires KeyLessEq(a, b) && KeyLessEq(b, c) && KeyLess(c, d)
    ensures KeyLess(a, d)
  {
    CompareKeysTransitive(a, b, c);
    CompareKeysTransitive(a, c, d);
  }

  // ---- meta block names ----

  /** Names in ascending unsigned byte order, equal names allowed. */
  predicate NamesSorted(names: seq<Bytes>) {
    forall i, j :: 0 <= i < j < |names| ==> LessEq(names[i], names[j])
  }

  /**
   * Where appendMetaBlock inserts a name: the first position whose name sorts
   * strictly after it, or the end.
   */
  function InsertionIndex(names: seq<Bytes>, name: Bytes): (i: nat)
    ensures i <= |names|
    ensures forall j :: 0 <= j < i ==> Compare(names[j], name) <= 0
    ensures i < |names| ==> Compare(names[i], name) > 0
  {
    if |names| == 0 then 0
    else if Compare(names[0], name) > 0 then 0
    else 1 + InsertionIndex(names[1..], name)
  }

  /**
   * In a sorted list the insertion point is the upper bound: the names before
   * it are exactly those that sort no later than the new one, so the new name
   * goes after any equal names.
   */
  lemma InsertionIsUpperBound(names: seq<Bytes>, name: Bytes)
    requires NamesSorted(names)
    ensures forall j :: 0 <= j < |names| ==> (j < InsertionIndex(names, name) <==> LessEq(names[j], name))
  {
    var i := InsertionIndex(names, name);
    forall j | 0 <= j < |names|
      ensures j < i <==> LessEq(names[j], name)
    {
      if j >= i {
        CompareAntisymmetric(names[i], name);
        if LessEq(names[j], name) {
          CompareTransitive(names[i], names[j], name);
        }
      }
    }
  }

  /** The insertion point is the only position with smaller-or-equal names before it and a greater one at it. */
  lemma InsertionIndexIsFirstGreater(names: seq<Bytes>, name: Bytes, i: nat)
    requires i <= |names|
    requires forall j :: 0 <= j < i ==> Compare(names[j], name) <= 0
    requires i < |names| ==> Compare(names[i], name) > 0
    ensures InsertionIndex(names, name) == i
  {
  }

  /** Inserting at the insertion point keeps a sorted list sorted. */
  lemma InsertKeepsSorted(names: seq<Bytes>, name: Bytes)
    requires NamesSorted(names)
    ensures var i := InsertionIndex(names, name);
      NamesSorted(names[..i] + [name] + names[i..])
  {
    var i := InsertionIndex(names, name);
    var r := names[..i] + [name] + names[i..];
    if i < |names| {
      CompareAntisymmetric(names[i], name);
    }
    forall a, b | 0 <= a < b < |r|
      ensures LessEq(r[a], r[b])
    {
      if a < i && b == i {
      } else if a == i && b > i {
        assert r[b] == names[b - 1];
        CompareTransitive(name, names[i], names[b - 1]);
      } else if a < i && b > i {
        assert r[b] == names[b - 1];
      } else if a > i {
        assert r[a] == names[a - 1] && r[b] == names[b - 1];
      }
    }
  }
}
