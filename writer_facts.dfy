/**
 * What the writer's operations promise beyond keeping the writer valid:
 * append's effect on the statistics and the data blocks, the order of the
 * data block index and where its blocks lie, appendMetaBlock's insertion
 * point, writeInlineBlocks draining every inline writer, and what close
 * records in the trailer.
 */
module WriterFacts {
  import opened Bytes
  import opened Cells
  import opened Errors
  import opened Context
  import opened Blocks
  import opened WriterSpec
  import opened WriterModel
  import opened WriterProps

  // ---- append ----

  /** Opening a block before the cell is added leaves the cells, the statistics and the last cell alone. */
  lemma OpenBlockKeepsCells(s: WriterState, duplicate: bool)
    requires s.CanFinishBlock()
    ensures var r := s.OpenBlock(duplicate);
      && r.stats == s.stats && r.history.cells == s.history.cells && r.cursor.lastCell == s.cursor.lastCell
  {
    if !duplicate && s.ShouldFinish() {
      var t := s.FinishBlock();
      assert t.stats == s.stats && t.history.cells == s.history.cells && t.cursor == s.cursor;
      assert t.WriteInlineBlocks(false).cursor == t.cursor;
    }
  }

  /**
   * append: a cell checkKey rejects changes nothing; an accepted one is
   * counted once, adds its key and value lengths to the totals, raises the
   * biggest-cell length, the maximum sequence id and the maximum tags length
   * to its own when larger, and becomes the last cell.
   */
  lemma AppendEffects(s: WriterState, cell: Option<Cell>)
    requires s.CanFinishBlock()
    ensures CheckKey(s.cursor.lastCell, cell).Err? ==> s.Append(cell) == s
    ensures CheckKey(s.cursor.lastCell, cell).Ok? ==>
      var c := cell.value;
      var r := s.Append(cell);
      && r.stats.entryCount == s.stats.entryCount + 1
      && r.stats.totalKeyLength == s.stats.totalKeyLength + KeyLength(c.key)
      && r.stats.totalValueLength == s.stats.totalValueLength + |c.value|
      && r.stats.lenOfBiggestCell == Max(s.stats.lenOfBiggestCell, EstimatedSerializedSize(c))
      && r.stats.maxMemstoreTS == Max(s.stats.maxMemstoreTS, c.sequenceId)
      && r.stats.maxTagsLength == Max(s.stats.maxTagsLength, |c.tags|)
      && r.cursor.lastCell == cell
      && r.history.cells == s.history.cells + [c]
  {
    var check := CheckKey(s.cursor.lastCell, cell);
    if check.Ok? {
      OpenBlockKeepsCells(s, check.value);
    }
  }

  /** Opening a block seals the block in progress exactly when the key is new, the boundary is reached and the block holds data. */
  lemma OpenBlockSeals(s: WriterState, duplicate: bool)
    requires s.CanFinishBlock()
    ensures var r := s.OpenBlock(duplicate);
      var seals := !duplicate && s.ShouldFinish() && s.block.writing && s.block.rawSize > 0;
      && |r.history.sealed| == |s.history.sealed| + (if seals then 1 else 0)
      && r.history.sealed[..|s.history.sealed|] == s.history.sealed
  {
    if !duplicate && s.ShouldFinish() {
      var t := s.FinishBlock();
      assert t.WriteInlineBlocks(false).history == t.history;
      assert t.history.sealed[..|s.history.sealed|] == s.history.sealed;
    }
  }

  /**
   * On a valid open writer, append writes a data block out exactly when a
   * cell was appended before, the new key differs from the last one, and the
   * block boundary test passes; the blocks written before stay as they were.
   */
  lemma AppendSealsIff(s: WriterState, cell: Option<Cell>)
    requires s.Valid() && !s.closed
    requires CheckKey(s.cursor.lastCell, cell).Ok?
    ensures var r := s.Append(cell);
      && (|r.history.sealed| == |s.history.sealed| + 1 <==>
            s.cursor.lastCell.Some? && cell.value.key != s.cursor.lastCell.value.key && s.ShouldFinish())
      && (|r.history.sealed| == |s.history.sealed| || |r.history.sealed| == |s.history.sealed| + 1)
      && r.history.sealed[..|s.history.sealed|] == s.history.sealed
  {
    var duplicate := CheckKey(s.cursor.lastCell, cell).value;
    OpenBlockSeals(s, duplicate);
    assert s.Append(cell).history.sealed == s.OpenBlock(duplicate).history.sealed;
  }

  /**
   * finishBlock: nothing happens unless a block with data is in progress;
   * then the block goes to the end of the stream at the current position,
   * that position becomes the last data block offset, and the first data
   * block offset, once set, never changes.
   */
  lemma FinishBlockOffsets(s: WriterState)
    requires s.CanFinishBlock()
    ensures !(s.block.writing && s.block.rawSize > 0) ==> s.FinishBlock() == s
    ensures s.dataBlocks.firstDataBlockOffset != UNSET ==>
              s.FinishBlock().dataBlocks.firstDataBlockOffset == s.dataBlocks.firstDataBlockOffset
    ensures s.block.writing && s.block.rawSize > 0 ==>
      var r := s.FinishBlock();
      && r.dataBlocks.lastDataBlockOffset == s.out.pos
      && (s.dataBlocks.firstDataBlockOffset == UNSET ==> r.dataBlocks.firstDataBlockOffset == s.out.pos)
      && !r.block.writing
      && |r.out.log| == |s.out.log| + 1 && r.out.log[..|s.out.log|] == s.out.log
      && r.out.log[|s.out.log|].offset == s.out.pos && r.out.log[|s.out.log|].blockType == s.block.blockType
      && |r.dataBlocks.entries| == |s.dataBlocks.entries| + 1
      && r.dataBlocks.entries[..|s.dataBlocks.entries|] == s.dataBlocks.entries
      && r.dataBlocks.entries[|s.dataBlocks.entries|].offset == s.out.pos
  {
    if s.block.writing && s.block.rawSize > 0 {
      var r := s.FinishBlock();
      assert r == s.SealDataBlock();
      assert r.out.log[..|s.out.log|] == s.out.log;
      assert r.dataBlocks.entries[..|s.dataBlocks.entries|] == s.dataBlocks.entries;
    }
  }

  // ---- the data block index ----

  /** The data block index keys strictly increase. */
  lemma IndexKeysIncrease(s: WriterState)
    requires s.IndexOrdered()
    ensures forall i, j :: 0 <= i < j < |s.dataBlocks.entries| ==>
              KeyLess(s.dataBlocks.entries[i].key, s.dataBlocks.entries[j].key)
  {
    forall i, j | 0 <= i < j < |s.dataBlocks.entries|
      ensures KeyLess(s.dataBlocks.entries[i].key, s.dataBlocks.entries[j].key)
    {
      SeparatorsIncrease(s.dataBlocks.entries, s.history.sealed, i, j);
    }
  }

  /**
   * Every data block index entry names a DATA block written to the stream,
   * with its offset and on-disk size, and the offsets strictly increase.
   */
  lemma IndexedBlocksOnStream(s: WriterState)
    requires s.IndexOnDisk() && s.out.Valid()
    ensures forall i :: 0 <= i < |s.dataBlocks.entries| ==>
              Written(DataBlock, s.dataBlocks.entries[i].offset, s.dataBlocks.entries[i].onDiskSize) in s.out.log
    ensures forall i, j :: 0 <= i < j < |s.dataBlocks.entries| ==>
              s.dataBlocks.entries[i].offset < s.dataBlocks.entries[j].offset
  {
    var log, at, keys := s.out.log, s.history.sealedAt, s.dataBlocks.entries;
    forall i | 0 <= i < |keys|
      ensures Written(DataBlock, keys[i].offset, keys[i].onDiskSize) in log
    {
      IndexedOnLogAt(log, at, keys, i);
    }
    forall i, j | 0 <= i < j < |keys|
      ensures keys[i].offset < keys[j].offset
    {
      IndexedOnLogAt(log, at, keys, i);
      IndexedOnLogAt(log, at, keys, j);
      OffsetsIncrease(log, s.out.start, s.out.pos, at[i], at[j]);
    }
  }

  // ---- meta blocks ----

  /**
   * appendMetaBlock inserts the name after every name that sorts no later
   * than it and before every name that sorts after it, puts the content at
   * the same position, shifts the later entries by one, and keeps the names
   * sorted.
   */
  lemma AppendMetaBlockInserts(s: WriterState, name: Bytes, content: Bytes)
    requires s.MetaState()
    ensures var r := s.AppendMetaBlock(name, content);
      var i := InsertionIndex(s.metaNames, name);
      && r.MetaState()
      && |r.metaNames| == |s.metaNames| + 1
      && r.metaNames[i] == name && r.metaData[i] == content
      && (forall j :: 0 <= j < i ==> r.metaNames[j] == s.metaNames[j] && r.metaData[j] == s.metaData[j])
      && (forall j :: i < j < |r.metaNames| ==> r.metaNames[j] == s.metaNames[j - 1] && r.metaData[j] == s.metaData[j - 1])
      && (forall j :: 0 <= j < |s.metaNames| ==> (j < i <==> LessEq(s.metaNames[j], name)))
  {
    InsertKeepsSorted(s.metaNames, name);
    InsertionIsUpperBound(s.metaNames, name);
  }

  // ---- inline blocks ----

  /** writeInlineBlocks' inner loop stops only when the writer has no block left to write. */
  lemma {:induction false} DrainInlineDrains(s: WriterState, w: InlineWriter, closing: bool)
    ensures !ShouldWriteBlock(s.DrainInline(w, closing).1, closing)
    ensures s.DrainInline(w, closing).1.blockType == w.blockType
    decreases Pending(w, closing)
  {
    if ShouldWriteBlock(w, closing) {
      var (t, w') := s.WriteInlineBlock(w, closing);
      DrainInlineDrains(t, w', closing);
    }
  }

  /** writeInlineBlocks' outer loop leaves every writer, in its place, with nothing left to write. */
  lemma {:induction false} DrainAllDrains(s: WriterState, ws: seq<InlineWriter>, closing: bool)
    ensures |s.DrainAll(ws, closing).1| == |ws|
    ensures forall k :: 0 <= k < |ws| ==>
              && !ShouldWriteBlock(s.DrainAll(ws, closing).1[k], closing)
              && s.DrainAll(ws, closing).1[k].blockType == ws[k].blockType
    decreases |ws|
  {
    if |ws| > 0 {
      var init := ws[..|ws| - 1];
      DrainAllDrains(s, init, closing);
      var (t, done) := s.DrainAll(init, closing);
      DrainInlineDrains(t, ws[|ws| - 1], closing);
      assert forall k :: 0 <= k < |init| ==> init[k] == ws[k];
    }
  }

  /**
   * writeInlineBlocks keeps the inline writers, of the same block types, in
   * the same order, and leaves none of them with a block it should still write.
   */
  lemma WriteInlineBlocksDrains(s: WriterState, closing: bool)
    ensures var r := s.WriteInlineBlocks(closing);
      && |r.inlineWriters| == |s.inlineWriters|
      && forall k :: 0 <= k < |r.inlineWriters| ==>
           && !ShouldWriteBlock(r.inlineWriters[k], closing)
           && r.inlineWriters[k].blockType == s.inlineWriters[k].blockType
  {
    DrainAllDrains(s, s.inlineWriters, closing);
  }

  // ---- close ----

  /** Each entry of idx indexes the name at its position with a META block on the log. */
  ghost predicate MetaIndexed(idx: seq<MetaIndexEntry>, log: seq<Written>, names: seq<Bytes>) {
    && |idx| == |names|
    && forall k :: 0 <= k < |idx| ==>
         idx[k].name == names[k] && Written(MetaBlock, idx[k].offset, idx[k].onDiskSize) in log
  }

  /** One more META block on a longer log, indexed under the next name. */
  lemma MetaIndexedExtend(idx: seq<MetaIndexEntry>, log: seq<Written>, names: seq<Bytes>,
                          e: MetaIndexEntry, log': seq<Written>)
    requires MetaIndexed(idx, log, names) && log <= log'
    requires Written(MetaBlock, e.offset, e.onDiskSize) in log'
    ensures MetaIndexed(idx + [e], log', names + [e.name])
  {
    forall k | 0 <= k < |idx|
      ensures Written(MetaBlock, idx[k].offset, idx[k].onDiskSize) in log'
    {
      var p :| 0 <= p < |log| && log[p] == Written(MetaBlock, idx[k].offset, idx[k].onDiskSize);
      assert log'[p] == log[p];
    }
  }

  /** A prefix stays one when an element is added at the end. */
  lemma PrefixGrows<T>(a: seq<T>, b: seq<T>, w: T)
    requires a <= b
    ensures a <= b + [w]
  {
    assert (b + [w])[..|a|] == b[..|a|];
  }

  /** The meta index and the log after one more pass of close's meta block loop. */
  lemma MetaLoopStep(base: seq<MetaIndexEntry>, idx: seq<MetaIndexEntry>, log0: seq<Written>, log: seq<Written>,
                     names: seq<Bytes>, n: nat, e: MetaIndexEntry)
    requires 0 < n <= |names| && e.name == names[n - 1]
    requires base <= idx && log0 <= log && MetaIndexed(idx[|base|..], log, names[..n - 1])
    ensures var log' := log + [Written(MetaBlock, e.offset, e.onDiskSize)];
      base <= idx + [e] && log0 <= log' && MetaIndexed((idx + [e])[|base|..], log', names[..n])
  {
    var log' := log + [Written(MetaBlock, e.offset, e.onDiskSize)];
    MetaIndexedExtend(idx[|base|..], log, names[..n - 1], e, log');
    assert log'[|log|] == Written(MetaBlock, e.offset, e.onDiskSize);
    assert names[..n] == names[..n - 1] + [e.name];
    assert (idx + [e])[|base|..] == idx[|base|..] + [e];
    PrefixGrows(log0, log, Written(MetaBlock, e.offset, e.onDiskSize));
    PrefixGrows(base, idx, e);
  }

  /** One pass of close's meta block loop: a META block at the end of the stream and its index entry. */
  lemma MetaBlockIndexed(s: WriterState, name: Bytes, content: Bytes)
    ensures var r := s.WriteMetaBlock(name, content);
      && |r.metaIndex| == |s.metaIndex| + 1 && r.metaIndex == s.metaIndex + [r.metaIndex[|s.metaIndex|]]
      && r.metaIndex[|s.metaIndex|].name == name
      && r.out.log == s.out.log + [Written(MetaBlock, r.metaIndex[|s.metaIndex|].offset, r.metaIndex[|s.metaIndex|].onDiskSize)]
      && r.metaNames == s.metaNames && r.metaData == s.metaData
  {
  }

  /** After n passes of close's meta block loop from s, r's meta index and log extend s's, indexing the first n names. */
  ghost predicate MetaLoopDone(s: WriterState, r: WriterState, n: nat) {
    && n <= |s.metaNames|
    && r.metaNames == s.metaNames && r.metaData == s.metaData
    && s.metaIndex <= r.metaIndex && s.out.log <= r.out.log
    && MetaIndexed(r.metaIndex[|s.metaIndex|..], r.out.log, s.metaNames[..n])
  }

  /** One more pass of the meta block loop keeps MetaLoopDone, one name further. */
  lemma MetaLoopNext(s: WriterState, s1: WriterState, n: nat)
    requires 0 < n <= |s.metaNames| == |s.metaData| && MetaLoopDone(s, s1, n - 1)
    ensures MetaLoopDone(s, s1.WriteMetaBlock(s.metaNames[n - 1], s.metaData[n - 1]), n)
  {
    var name := s.metaNames[n - 1];
    MetaBlockIndexed(s1, name, s.metaData[n - 1]);
    var r := s1.WriteMetaBlock(name, s.metaData[n - 1]);
    MetaLoopStep(s.metaIndex, s1.metaIndex, s.out.log, s1.out.log, s.metaNames, n, r.metaIndex[|s1.metaIndex|]);
  }

  /**
   * close's meta block loop: the meta index grows by one entry per name, in
   * the order of the names, each naming a META block written to the stream.
   */
  lemma {:induction false} MetaBlocksIndexed(s: WriterState, n: nat)
    requires n <= |s.metaNames| == |s.metaData|
    ensures MetaLoopDone(s, s.WriteMetaBlocks(n), n)
  {
    if n > 0 {
      MetaBlocksIndexed(s, n - 1);
      MetaLoopNext(s, s.WriteMetaBlocks(n - 1), n);
    } else {
      assert s.metaIndex[|s.metaIndex|..] == [];
    }
  }

  /** The file info close completes depends only on the file info so far, the cursor, the statistics and the context. */
  lemma FinishedInfoSame(a: WriterState, b: WriterState)
    requires a.fileInfo == b.fileInfo && a.cursor == b.cursor && a.stats == b.stats && a.context == b.context
    ensures a.AddMvccInfo().FinishFileInfo().fileInfo == b.AddMvccInfo().FinishFileInfo().fileInfo
  {
  }

  /** What the root index blocks and the file info leave alone, and where the root data index lands. */
  lemma IndexesAndInfoKeep(u: WriterState)
    ensures var (r, _) := u.WriteRootIndexes().AddMvccInfo().WriteFileInfo();
      && KeepsRecords(u, r) && r.fileInfo == u.AddMvccInfo().FinishFileInfo().fileInfo
      && |u.out.log| < |r.out.log| && r.out.log[|u.out.log|].blockType == RootIndexBlock
      && r.out.log[|u.out.log|].offset == u.out.pos
  {
    var s1 := u.WriteDataIndexRoot();
    var s2 := u.WriteRootIndexes();
    assert s2.out.log[..|s1.out.log|] == s1.out.log;
    FileInfoOnly(s2);
    FinishedInfoSame(s2, u);
    var f := s2.AddMvccInfo().FinishFileInfo();
    var r := f.WriteBlock(FileInfoBlock, f.codec.payloadSize(FileInfoBlock, |f.fileInfo|));
    assert r.out.log[..|f.out.log|] == f.out.log;
    assert r.out.log[..|u.out.log|] == u.out.log;
  }

  /** Neither the meta index, the cells, the statistics nor the data block index change, and the stream only grows. */
  ghost predicate KeepsRecords(u: WriterState, r: WriterState) {
    && r.history == u.history && r.stats == u.stats && r.cursor == u.cursor
    && r.metaNames == u.metaNames && r.metaIndex == u.metaIndex && r.dataBlocks == u.dataBlocks
    && r.context == u.context && r.codec == u.codec
    && r.closeOutputStream == u.closeOutputStream && r.outputStream == u.outputStream && r.closed == u.closed
    && |u.out.log| <= |r.out.log| && r.out.log[..|u.out.log|] == u.out.log
  }

  /**
   * From the root index blocks on, close writes the trailer last, with the
   * entry count, the number of meta blocks and the data block offsets the
   * writer holds, and the root data index offset as the load-on-open offset.
   */
  lemma SectionWritesTrailer(u: WriterState)
    requires u.Ready()
    ensures var r := u.WriteLoadOnOpenSection();
      && r.history == u.history && r.metaIndex == u.metaIndex && r.dataBlocks == u.dataBlocks
      && r.closed && r.trailer.Some?
      && r.trailer.value.entryCount == u.stats.entryCount
      && r.trailer.value.dataIndexCount == |u.dataBlocks.entries|
      && r.trailer.value.metaIndexCount == |u.metaNames|
      && r.fileInfo == u.AddMvccInfo().FinishFileInfo().fileInfo
      && r.trailer.value.firstDataBlockOffset == u.dataBlocks.firstDataBlockOffset
      && r.trailer.value.lastDataBlockOffset == u.dataBlocks.lastDataBlockOffset
      && r.trailer.value.loadOnOpenOffset == u.out.pos
      && |u.out.log| + 1 < |r.out.log| && r.out.log[..|u.out.log|] == u.out.log
      && r.out.log[|u.out.log|].blockType == RootIndexBlock && r.out.log[|u.out.log|].offset == u.out.pos
      && r.out.log[|r.out.log| - 1].blockType == TrailerBlock && r.out.log[|r.out.log| - 1].size == TRAILER_SIZE
  {
    IndexesAndInfoKeep(u);
    var (s3, fileInfoOffset) := u.WriteRootIndexes().AddMvccInfo().WriteFileInfo();
    var s4 := s3.WriteLoadOnOpen(|s3.loadOnOpen|);
    WriteLoadOnOpenWrites(s3, |s3.loadOnOpen|);
    assert s4.out.log[..|u.out.log|] == u.out.log;
    var r := s4.FinishClose(fileInfoOffset, u.out.pos);
    assert r.out.log[..|s4.out.log|] == s4.out.log;
    assert r.out.log[..|u.out.log|] == u.out.log;
  }

  /** Each counted block adds its uncompressed bytes, header included, to the writer's total. */
  lemma WriteBlockCounts(s: WriterState, t: BlockType, payload: nat)
    ensures s.WriteBlock(t, payload).totalUncompressedBytes == s.totalUncompressedBytes + BlockBytes(s.codec, payload)
  {
  }

  /** close's loop over the first n load-on-open blocks adds their uncompressed bytes to the total. */
  lemma {:induction false} LoadOnOpenCounts(s: WriterState, n: nat)
    requires n <= |s.loadOnOpen|
    ensures s.WriteLoadOnOpen(n).totalUncompressedBytes == s.totalUncompressedBytes + LoadOnOpenBytes(s.codec, s.loadOnOpen[..n])
  {
    if n > 0 {
      LoadOnOpenCounts(s, n - 1);
      var b := s.loadOnOpen[n - 1];
      WriteBlockCounts(s.WriteLoadOnOpen(n - 1), b.blockType, b.size);
      assert s.loadOnOpen[..n][..n - 1] == s.loadOnOpen[..n - 1];
    }
  }

  /** close's meta block loop over the first n names adds the uncompressed bytes of their blocks to the total. */
  lemma {:induction false} MetaBlocksCount(s: WriterState, n: nat)
    requires n <= |s.metaNames| == |s.metaData|
    ensures MetaCounted(s, s.WriteMetaBlocks(n), n)
  {
    if n > 0 {
      MetaBlocksCount(s, n - 1);
      WriteBlockCounts(s.WriteMetaBlocks(n - 1), MetaBlock, |s.metaData[n - 1]|);
      assert s.metaData[..n][..n - 1] == s.metaData[..n - 1];
    }
  }

  /**
   * After n passes of close's meta block loop from s: the uncompressed bytes
   * of the first n meta blocks are counted, the meta index has n more
   * entries, and the codec, context and load-on-open blocks are s's.
   */
  ghost predicate MetaCounted(s: WriterState, r: WriterState, n: nat)
    requires n <= |s.metaData|
  {
    && r.totalUncompressedBytes == s.totalUncompressedBytes + MetaBytes(s.codec, s.metaData[..n])
    && |r.metaIndex| == |s.metaIndex| + n
    && r.codec == s.codec && r.context == s.context && r.loadOnOpen == s.loadOnOpen
  }

  /**
   * The trailer's byte total, from the root index blocks on: the bytes
   * counted before, plus the meta index root block, the file info block and
   * every load-on-open block, plus the trailer; the data index root block is
   * not counted.
   */
  lemma SectionCountsBytes(u: WriterState)
    requires u.Ready()
    ensures SectionCounted(u, u.WriteLoadOnOpenSection())
  {
    var s1 := u.WriteDataIndexRoot();
    assert s1.totalUncompressedBytes == u.totalUncompressedBytes && s1.metaIndex == u.metaIndex;
    var s2 := u.WriteRootIndexes();
    WriteBlockCounts(s1, RootIndexBlock, u.codec.payloadSize(RootIndexBlock, |u.metaIndex|));
    FileInfoOnly(s2);
    var f := s2.AddMvccInfo().FinishFileInfo();
    var (s3, fileInfoOffset) := s2.AddMvccInfo().WriteFileInfo();
    WriteBlockCounts(f, FileInfoBlock, f.codec.payloadSize(FileInfoBlock, |f.fileInfo|));
    assert s3.loadOnOpen == u.loadOnOpen && s3.fileInfo == f.fileInfo;
    LoadOnOpenCounts(s3, |s3.loadOnOpen|);
    assert s3.loadOnOpen[..|s3.loadOnOpen|] == s3.loadOnOpen;
  }

  /**
   * finishFileInfo, after close's MVCC entries, records the writer's last
   * cell and statistics, given a file info that holds only keys added
   * through appendFileInfo.
   */
  lemma FinishFileInfoRecords(t: WriterState)
    requires forall k :: k in t.fileInfo ==> k.Named?
    ensures InfoRecords(t.AddMvccInfo().FinishFileInfo().fileInfo, t.cursor.lastCell, t.stats, t.context)
  {
    var u := t.AddMvccInfo();
    assert u.cursor == t.cursor && u.stats == t.stats && u.context == t.context;
    FinishedInfoStatistics(u);
    FinishedInfoVersions(t);
  }

  /** The entries finishFileInfo adds: last key, averages, creation time, biggest cell, tags. */
  lemma FinishedInfoStatistics(u: WriterState)
    requires forall k :: k in u.fileInfo ==> k.Named?
    ensures var info := u.FinishFileInfo().fileInfo;
      && (LastKey in info <==> u.cursor.lastCell.Some?)
      && (u.cursor.lastCell.Some? ==> info[LastKey] == KeyBytes(u.cursor.lastCell.value.key))
      && AvgKeyLen in info && info[AvgKeyLen] == IntValue(AverageAsInt(u.stats.totalKeyLength, u.stats.entryCount))
      && AvgValueLen in info && info[AvgValueLen] == IntValue(AverageAsInt(u.stats.totalValueLength, u.stats.entryCount))
      && CreateTimeTs in info && info[CreateTimeTs] == LongValue(u.context.fileCreateTime)
      && (KeyOfBiggestCell in info <==> u.stats.keyOfBiggestCell.Some?)
      && (u.stats.keyOfBiggestCell.Some? ==>
            && info[KeyOfBiggestCell] == KeyBytes(u.stats.keyOfBiggestCell.value)
            && LenOfBiggestCell in info && info[LenOfBiggestCell] == LongValue(u.stats.lenOfBiggestCell))
      && (MaxTagsLen in info <==> u.context.includesTags)
      && (u.context.includesTags ==>
            && info[MaxTagsLen] == IntValue(u.stats.maxTagsLength)
            && TagsCompressed in info
            && info[TagsCompressed] == BoolValue(u.context.encoding != NoEncoding && u.context.compressTags))
  {
  }

  /** With MVCC versions kept, the two entries close adds survive finishFileInfo. */
  lemma FinishedInfoVersions(t: WriterState)
    ensures var info := t.AddMvccInfo().FinishFileInfo().fileInfo;
      t.context.includesMvcc ==>
        && Named(MAX_MEMSTORE_TS_KEY) in info && info[Named(MAX_MEMSTORE_TS_KEY)] == LongValue(t.stats.maxMemstoreTS)
        && Named(KEY_VALUE_VERSION) in info && info[Named(KEY_VALUE_VERSION)] == IntValue(KEY_VALUE_VER_WITH_MEMSTORE)
  {
    assert MAX_MEMSTORE_TS_KEY[0] != KEY_VALUE_VERSION[0];
  }

  /** What SectionCountsBytes states of the state r that close's load-on-open section leaves after u. */
  ghost predicate SectionCounted(u: WriterState, r: WriterState) {
    && r.trailer.Some? && r.metaIndex == u.metaIndex
    && r.trailer.value.totalUncompressedBytes ==
         u.totalUncompressedBytes
         + BlockBytes(u.codec, u.codec.payloadSize(RootIndexBlock, |u.metaIndex|))
         + BlockBytes(u.codec, u.codec.payloadSize(FileInfoBlock, |r.fileInfo|))
         + LoadOnOpenBytes(u.codec, u.loadOnOpen)
         + TRAILER_SIZE
  }

  /** The meta blocks' count and the section's count add up. */
  lemma CountsAddUp(t: WriterState, t2: WriterState, r: WriterState)
    requires |t.metaNames| == |t.metaData|
    requires MetaCounted(t, t2, |t.metaData|) && SectionCounted(t2, r)
    ensures && r.trailer.Some?
      && |r.metaIndex| == |t.metaIndex| + |t.metaNames|
      && r.trailer.value.totalUncompressedBytes ==
           t.totalUncompressedBytes
           + MetaBytes(t.codec, t.metaData)
           + BlockBytes(t.codec, t.codec.payloadSize(RootIndexBlock, |r.metaIndex|))
           + BlockBytes(t.codec, t.codec.payloadSize(FileInfoBlock, |r.fileInfo|))
           + LoadOnOpenBytes(t.codec, t.loadOnOpen)
           + TRAILER_SIZE
  {
    assert t.metaData[..|t.metaData|] == t.metaData;
  }

  /**
   * The trailer's byte total once close reaches the meta blocks: the bytes
   * counted so far (the data and inline blocks), plus every meta block, the
   * meta index root block, the file info block and every load-on-open block,
   * plus the trailer; the data index root block is not counted.
   */
  lemma CloseCountsBytes(t: WriterState)
    requires t.Ready() && |t.metaNames| == |t.metaData|
    ensures var r := t.WriteMetaBlocks(|t.metaNames|).WriteLoadOnOpenSection();
      && r.trailer.Some?
      && |r.metaIndex| == |t.metaIndex| + |t.metaNames|
      && r.trailer.value.totalUncompressedBytes ==
           t.totalUncompressedBytes
           + MetaBytes(t.codec, t.metaData)
           + BlockBytes(t.codec, t.codec.payloadSize(RootIndexBlock, |r.metaIndex|))
           + BlockBytes(t.codec, t.codec.payloadSize(FileInfoBlock, |r.fileInfo|))
           + LoadOnOpenBytes(t.codec, t.loadOnOpen)
           + TRAILER_SIZE
  {
    var t2 := t.WriteMetaBlocks(|t.metaNames|);
    MetaBlocksCount(t, |t.metaNames|);
    SectionCountsBytes(t2);
    CountsAddUp(t, t2, t2.WriteLoadOnOpenSection());
  }

  /** A longer log still holds every META block an index names. */
  lemma MetaIndexedLater(idx: seq<MetaIndexEntry>, log: seq<Written>, names: seq<Bytes>, log': seq<Written>)
    requires MetaIndexed(idx, log, names) && log <= log'
    ensures MetaIndexed(idx, log', names)
  {
    forall k | 0 <= k < |idx|
      ensures Written(MetaBlock, idx[k].offset, idx[k].onDiskSize) in log'
    {
      var p :| 0 <= p < |log| && log[p] == Written(MetaBlock, idx[k].offset, idx[k].onDiskSize);
      assert log'[p] == log[p];
    }
  }

  /** What close's first steps leave of an open writer s: see CloseDataPart. */
  ghost predicate DataPartDone(s: WriterState, t: WriterState) {
    && t.Ready() && |t.metaNames| == |t.metaData|
    && t.history.cells == s.history.cells && t.stats == s.stats
    && t.LastSealed() == s.cursor.lastCell
    && t.metaNames == s.metaNames
    && t.cursor.lastCell == s.cursor.lastCell && t.fileInfo == s.fileInfo && t.context == s.context
    && |t.dataBlocks.entries| == |t.history.sealed|
    && s.out.log <= t.out.log
  }

  /**
   * close up to the meta blocks: the last data block is sealed, holding the
   * last cell appended, and the inline blocks are flushed; the cells, their
   * statistics and the meta block names are untouched.
   */
  lemma CloseDataPart(s: WriterState)
    requires s.Valid() && !s.closed
    ensures s.CanFinishBlock()
    ensures DataPartDone(s, s.FinishBlock().WriteInlineBlocks(true))
  {
    FinishBlockDone(s);
    var t0 := s.FinishBlock();
    WriteInlineBlocksWrites(t0, true);
    var t := t0.WriteInlineBlocks(true);
    WritesKeep(t0, t);
    assert t.out.log[..|t0.out.log|] == t0.out.log;
    if s.block.writing && s.block.rawSize > 0 {
      SealKeepsRecords(s);
      assert t0 == s.SealDataBlock();
      assert t0.out.log[..|s.out.log|] == s.out.log;
    } else {
      assert t0 == s;
    }
  }

  /**
   * What close leaves behind, seen from the writer t it started the meta
   * blocks from: closed with a trailer counting t's cells and meta blocks,
   * the cells kept, the meta index ending with one entry per meta block name,
   * in order, each naming a META block on the stream, t's stream extended and
   * ending with the trailer.
   */
  ghost predicate TrailerWritten(t: WriterState, r: WriterState) {
    && r.closed && r.trailer.Some? && r.history == t.history
    && r.trailer.value.entryCount == t.stats.entryCount
    && r.trailer.value.dataIndexCount == |t.dataBlocks.entries|
    && r.fileInfo == t.AddMvccInfo().FinishFileInfo().fileInfo
    && r.trailer.value.metaIndexCount == |t.metaNames|
    && |t.metaNames| <= |r.metaIndex|
    && MetaIndexed(r.metaIndex[|r.metaIndex| - |t.metaNames|..], r.out.log, t.metaNames)
    && t.out.log <= r.out.log && |r.out.log| > 0
    && r.out.log[|r.out.log| - 1].blockType == TrailerBlock
  }

  /** The load-on-open section and the trailer after close's meta block loop. */
  lemma SectionAfterMeta(t: WriterState, t2: WriterState)
    requires t2.Ready() && MetaLoopDone(t, t2, |t.metaNames|)
    requires t2.history == t.history && t2.stats == t.stats && t2.dataBlocks == t.dataBlocks
    requires t2.fileInfo == t.fileInfo && t2.cursor == t.cursor && t2.context == t.context
    ensures TrailerWritten(t, t2.WriteLoadOnOpenSection())
  {
    SectionWritesTrailer(t2);
    FinishedInfoSame(t2, t);
    var r := t2.WriteLoadOnOpenSection();
    assert t.metaNames[..|t.metaNames|] == t.metaNames;
    MetaIndexedLater(r.metaIndex[|t.metaIndex|..], t2.out.log, t.metaNames, r.out.log);
    PrefixChain(t.out.log, t2.out.log, r.out.log);
  }

  /** close from the meta blocks on. */
  lemma MetaAndSection(t: WriterState)
    requires t.Ready() && |t.metaNames| == |t.metaData|
    ensures TrailerWritten(t, t.WriteMetaBlocks(|t.metaNames|).WriteLoadOnOpenSection())
  {
    MetaBlocksIndexed(t, |t.metaNames|);
    SectionAfterMeta(t, t.WriteMetaBlocks(|t.metaNames|));
  }

  /** Prefixes chain. */
  lemma PrefixChain<T>(a: seq<T>, b: seq<T>, c: seq<T>)
    requires a <= b && b <= c
    ensures a <= c
  {
    assert c[..|a|] == b[..|a|];
  }

  /**
   * What close leaves of an open writer s: closed with a trailer counting
   * every cell appended, every data block and every meta block; a file info
   * recording the last cell and the statistics of the cells; the last data
   * block ending with the last cell appended; the meta index ending with one
   * entry per meta block name, in order, each naming a META block on the
   * stream; and s's stream extended and ending with the trailer.
   */
  ghost predicate ClosedOver(s: WriterState, r: WriterState) {
    && r.closed && r.trailer.Some?
    && r.trailer.value.entryCount == |s.history.cells|
    && r.trailer.value.dataIndexCount == |r.history.sealed|
    && r.trailer.value.metaIndexCount == |s.metaNames|
    && r.history.cells == s.history.cells
    && InfoRecords(r.fileInfo, if |s.history.cells| == 0 then None else Some(s.history.cells[|s.history.cells| - 1]),
                   StatsOf(s.history.cells), s.context)
    && r.LastSealed() == s.cursor.lastCell
    && |s.metaNames| <= |r.metaIndex|
    && MetaIndexed(r.metaIndex[|r.metaIndex| - |s.metaNames|..], r.out.log, s.metaNames)
    && s.out.log <= r.out.log && |r.out.log| > 0
    && r.out.log[|r.out.log| - 1].blockType == TrailerBlock
  }

  /** The two halves of close put together. */
  lemma CloseHalves(s: WriterState, t: WriterState, r: WriterState)
    requires s.Aggregates() && s.InfoState() && !s.closed && DataPartDone(s, t) && TrailerWritten(t, r)
    ensures ClosedOver(s, r)
  {
    PrefixChain(s.out.log, t.out.log, r.out.log);
    FinishFileInfoRecords(t);
  }

  /** close on an open writer leaves what ClosedOver describes. */
  lemma CloseWritesTrailer(s: WriterState)
    requires s.Valid() && !s.closed
    ensures ClosedOver(s, s.Close())
  {
    CloseDataPart(s);
    var t := s.FinishBlock().WriteInlineBlocks(true);
    MetaAndSection(t);
    CloseHalves(s, t, t.WriteMetaBlocks(|t.metaNames|).WriteLoadOnOpenSection());
  }

  /** A second close of a writer that owned its stream does nothing: the stream reference is gone. */
  lemma CloseAgainOwned(s: WriterState)
    requires s.Valid() && s.closed && s.closeOutputStream
    ensures s.Close() == s
  {
  }

  /**
   * In this model, a second close of a writer that did not own its stream
   * finds the stream still held, so it goes through close again and writes
   * at least one more block (the meta blocks, the load-on-open section and a
   * trailer once more). The block writer's release and any close-once check
   * of the index writer are outside the model.
   */
  lemma CloseAgainBorrowed(s: WriterState)
    requires s.Valid() && s.closed && !s.closeOutputStream
    ensures |s.out.log| < |s.Close().out.log| && s.out.log <= s.Close().out.log
  {
    CloseKeepsValid(s);
    var t0 := s.FinishBlock();
    assert t0 == s;
    WriteInlineBlocksWrites(t0, true);
    var t := t0.WriteInlineBlocks(true);
    WriteMetaBlocksWrites(t, |t.metaNames|);
    var t2 := t.WriteMetaBlocks(|t.metaNames|);
    WritesKeep(t0, t);
    WritesKeep(t, t2);
    SectionWritesTrailer(t2);
    assert t.out.log[..|s.out.log|] == s.out.log;
    assert t2.out.log[..|t.out.log|] == t.out.log;
  }

  /** The larger of two integers. */
  function Max(a: int, b: int): (m: int)
    ensures m >= a && m >= b && (m == a || m == b)
  {
    if a < b then b else a
  }
}
