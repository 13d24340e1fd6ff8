/**
 * What the HFile writer's operations guarantee, proved about the functions
 * of module WriterModel: each operation keeps the writer's invariant, and the
 * file close() lays down is described by the index, the file info and the
 * trailer it writes.
 */
module WriterProps {
  import opened Bytes
  import opened Cells
  import opened Errors
  import opened Context
  import opened Separator
  import opened Blocks
  import opened WriterSpec
  import opened WriterModel

  /** A new writer is valid. */
  lemma InitialStateValid(context: HFileContext, closeOutputStream: bool, encodedBlockSizeLimit: int,
                          codec: Codec, stream: Sink, view: StreamView)
    requires context.cellComparator.Some? && context.compressAlgo.Some? && context.cryptoContext.Some?
    requires codec.Valid() && view.Valid()
    ensures InitialState(context, closeOutputStream, encodedBlockSizeLimit, codec, stream, view).Valid()
  {
  }

  // ---- the states append passes through ----

  /** An open writer between the steps of append: valid, except that its block may hold no cell yet. */
  ghost predicate Settled(s: WriterState) {
    && s.Consistent() && s.InfoState() && s.BlockState() && !s.closed && s.outputStream != null
  }

  /**
   * An open writer whose block holds no data, as finishBlock leaves it:
   * the last cell appended, if any, closes the last data block written.
   */
  ghost predicate BlockDone(s: WriterState) {
    && s.Consistent() && s.InfoState() && !s.closed && s.outputStream != null
    && !(s.block.writing && s.block.rawSize > 0)
    && (s.cursor.lastCell.Some? ==> s.cursor.lastCell == s.LastSealed())
    && (s.cursor.lastCell.None? ==> s.cursor.lastCellOfPreviousBlock.None? && s.LastSealed().None?)
  }

  /** A settled writer can finish its block; one whose block holds no data has nothing to finish. */
  lemma SettledFacts(s: WriterState)
    requires Settled(s)
    ensures s.CanFinishBlock()
    ensures !(s.block.writing && s.block.rawSize > 0) ==> BlockDone(s)
  {
  }

  /** Sealing a block leaves the configuration, the meta blocks, the cells and the file info alone. */
  lemma SealKeepsRecords(s: WriterState)
    requires Settled(s) && s.block.writing && s.block.rawSize > 0
    ensures var r := s.SealDataBlock();
      r.Ready() && r.MetaState() && r.Aggregates() && r.InfoState()
  {
  }

  /** Sealing a block puts one more non-empty block at the end of the stream. */
  lemma SealKeepsStream(s: WriterState)
    requires Settled(s) && s.block.writing && s.block.rawSize > 0
    ensures s.SealDataBlock().out.Valid()
  {
    FinishedBlockHasSize(s.block, s.codec);
    EmitKeepsValid(s.out, s.block.blockType, s.block.Finish(s.codec).onDiskSizeWithHeader);
  }

  /** The new index entry names the DATA block just written, and the block offsets follow the index. */
  lemma SealKeepsIndexOnDisk(s: WriterState)
    requires s.IndexOnDisk() && s.Ready() && s.CanFinishBlock()
    requires s.block.writing && s.block.rawSize > 0 && s.block.blockType == DataBlock
    ensures s.SealDataBlock().IndexOnDisk()
  {
    var size := s.block.Finish(s.codec).onDiskSizeWithHeader;
    var m := MidpointOf(s.context.cellComparator.value, s.cursor.lastCellOfPreviousBlock, s.cursor.firstCellInBlock.value);
    IndexedOnLogAppend(s.out.log, s.history.sealedAt, s.dataBlocks.entries, DataIndexEntry(m.key, s.out.pos, size));
  }

  /** The new index entry separates the block just written from the one before it. */
  lemma SealKeepsIndexOrder(s: WriterState)
    requires Settled(s) && s.block.writing && s.block.rawSize > 0
    ensures s.SealDataBlock().IndexOrdered()
  {
    SealKeepsSeparation(s.context.cellComparator.value, s.dataBlocks.entries, s.history.sealed,
                        s.cursor.lastCellOfPreviousBlock, s.cursor.firstCellInBlock.value, s.cursor.lastCell.value,
                        s.out.pos, s.block.Finish(s.codec).onDiskSizeWithHeader);
  }

  /**
   * Sealing a non-empty block: the stream gains a DATA block, the index an
   * entry that separates it from the block before, and the block's last
   * cell becomes the last cell of the last data block.
   */
  lemma SealKeepsConsistent(s: WriterState)
    requires Settled(s) && s.block.writing && s.block.rawSize > 0
    ensures s.CanFinishBlock()
    ensures BlockDone(s.SealDataBlock())
  {
    SealKeepsRecords(s);
    SealKeepsStream(s);
    SealKeepsIndexOnDisk(s);
    SealKeepsIndexOrder(s);
  }

  /** finishBlock leaves a settled writer with no data in its block, and its cells as they were. */
  lemma FinishBlockDone(s: WriterState)
    requires Settled(s)
    ensures s.CanFinishBlock()
    ensures BlockDone(s.FinishBlock())
    ensures s.FinishBlock().cursor == s.cursor && s.FinishBlock().history.cells == s.history.cells
  {
    SettledFacts(s);
    if s.block.writing && s.block.rawSize > 0 {
      SealKeepsConsistent(s);
      assert s.FinishBlock() == s.SealDataBlock();
    } else {
      assert s.FinishBlock() == s;
    }
  }

  /** newBlock on a writer with no data in its block starts an empty DATA block and settles it. */
  lemma NewBlockSettles(s: WriterState)
    requires BlockDone(s)
    ensures Settled(s.NewBlock()) && s.NewBlock().block.writing
    ensures s.NewBlock().cursor.lastCell == s.cursor.lastCell
  {
  }

  // ---- writing blocks that are not data blocks ----

  /**
   * r is s with more blocks on the stream: only the block writer, the
   * stream (grown at its end, still tiled when it was), the byte count, the
   * meta index and the inline writers differ, and a block in progress is
   * either untouched or finished.
   */
  ghost predicate WritesBlocks(s: WriterState, r: WriterState) {
    && r == s.(block := r.block, out := r.out, totalUncompressedBytes := r.totalUncompressedBytes,
               metaIndex := r.metaIndex, inlineWriters := r.inlineWriters)
    && (r.block == s.block || !r.block.writing)
    && |s.out.log| <= |r.out.log| && r.out.log[..|s.out.log|] == s.out.log
    && (s.Ready() && s.out.Valid() ==> r.out.Valid())
  }

  lemma WritesNothing(s: WriterState)
    ensures WritesBlocks(s, s)
  {
    assert s.out.log[..|s.out.log|] == s.out.log;
  }

  lemma WritesTransitive(a: WriterState, b: WriterState, c: WriterState)
    requires WritesBlocks(a, b) && WritesBlocks(b, c)
    ensures WritesBlocks(a, c)
  {
    assert c.out.log[..|a.out.log|] == c.out.log[..|b.out.log|][..|a.out.log|];
  }

  /** The index still names the same blocks once more blocks follow them. */
  lemma WritesKeepIndex(s: WriterState, r: WriterState)
    requires WritesBlocks(s, r)
    ensures s.IndexOnDisk() ==> r.IndexOnDisk()
  {
    if s.IndexOnDisk() {
      IndexedOnLogExtends(s.out.log, r.out.log, s.history.sealedAt, s.dataBlocks.entries);
    }
  }

  /** Writing more blocks keeps what the writer knows about its cells and its data blocks true. */
  lemma WritesKeep(s: WriterState, r: WriterState)
    requires WritesBlocks(s, r)
    ensures s.Consistent() ==> r.Consistent()
    ensures s.CanFinishBlock() ==> r.CanFinishBlock()
    ensures BlockDone(s) ==> BlockDone(r)
  {
    WritesKeepIndex(s, r);
  }

  /** One whole block goes on the stream, and the block writer is left idle. */
  lemma WriteBlockWrites(s: WriterState, t: BlockType, payload: nat)
    ensures WritesBlocks(s, s.WriteBlock(t, payload))
    ensures !s.WriteBlock(t, payload).block.writing
  {
    var b := s.block.StartWriting(t).WriteBytes(payload);
    var size := b.Finish(s.codec).onDiskSizeWithHeader;
    var out' := s.out.Emit(t, size);
    assert out'.log[..|s.out.log|] == s.out.log;
    if s.Ready() && s.out.Valid() {
      FinishedBlockHasSize(b, s.codec);
      EmitKeepsValid(s.out, t, size);
    }
  }

  lemma {:induction false} DrainInlineWrites(s: WriterState, w: InlineWriter, closing: bool)
    ensures WritesBlocks(s, s.DrainInline(w, closing).0)
    decreases Pending(w, closing)
  {
    if !ShouldWriteBlock(w, closing) {
      WritesNothing(s);
    } else {
      var (s1, w1) := s.WriteInlineBlock(w, closing);
      WriteBlockWrites(s, w.blockType, NextChunk(w, closing));
      DrainInlineWrites(s1, w1, closing);
      WritesTransitive(s, s1, s1.DrainInline(w1, closing).0);
    }
  }

  lemma {:induction false} DrainAllWrites(s: WriterState, ws: seq<InlineWriter>, closing: bool)
    ensures WritesBlocks(s, s.DrainAll(ws, closing).0)
    decreases |ws|
  {
    if |ws| == 0 {
      WritesNothing(s);
    } else {
      var (s1, _) := s.DrainAll(ws[..|ws| - 1], closing);
      DrainAllWrites(s, ws[..|ws| - 1], closing);
      DrainInlineWrites(s1, ws[|ws| - 1], closing);
      WritesTransitive(s, s1, s1.DrainInline(ws[|ws| - 1], closing).0);
    }
  }

  lemma WriteInlineBlocksWrites(s: WriterState, closing: bool)
    ensures WritesBlocks(s, s.WriteInlineBlocks(closing))
  {
    DrainAllWrites(s, s.inlineWriters, closing);
  }

  lemma WriteMetaBlockWrites(s: WriterState, name: Bytes, content: Bytes)
    ensures WritesBlocks(s, s.WriteMetaBlock(name, content))
  {
    WriteBlockWrites(s, MetaBlock, |content|);
  }

  lemma {:induction false} WriteMetaBlocksWrites(s: WriterState, n: nat)
    requires n <= |s.metaNames| == |s.metaData|
    ensures WritesBlocks(s, s.WriteMetaBlocks(n))
  {
    if n == 0 {
      WritesNothing(s);
    } else {
      var s1 := s.WriteMetaBlocks(n - 1);
      WriteMetaBlocksWrites(s, n - 1);
      WriteMetaBlockWrites(s1, s.metaNames[n - 1], s.metaData[n - 1]);
      WritesTransitive(s, s1, s1.WriteMetaBlock(s.metaNames[n - 1], s.metaData[n - 1]));
    }
  }

  lemma {:induction false} WriteLoadOnOpenWrites(s: WriterState, n: nat)
    requires n <= |s.loadOnOpen|
    ensures WritesBlocks(s, s.WriteLoadOnOpen(n))
  {
    if n == 0 {
      WritesNothing(s);
    } else {
      var s1 := s.WriteLoadOnOpen(n - 1);
      WriteLoadOnOpenWrites(s, n - 1);
      WriteBlockWrites(s1, s.loadOnOpen[n - 1].blockType, s.loadOnOpen[n - 1].size);
      WritesTransitive(s, s1, s1.WriteBlock(s.loadOnOpen[n - 1].blockType, s.loadOnOpen[n - 1].size));
    }
  }

  // ---- append ----

  /** checkBlockBoundary keeps a settled writer settled, with the same last cell. */
  lemma CheckBlockBoundaryKeeps(s: WriterState)
    requires Settled(s)
    ensures s.CanFinishBlock()
    ensures Settled(s.CheckBlockBoundary())
    ensures s.CheckBlockBoundary().cursor.lastCell == s.cursor.lastCell
  {
    FinishBlockDone(s);
    if s.ShouldFinish() {
      var t := s.FinishBlock();
      WriteInlineBlocksWrites(t, false);
      WritesKeep(t, t.WriteInlineBlocks(false));
      NewBlockSettles(t.WriteInlineBlocks(false));
    }
  }

  /**
   * What append does before adding the cell leaves a settled writer with a
   * block open and the same last cell; a block that holds no cell yet is
   * one the cell's key was checked to follow strictly.
   */
  lemma OpenBlockSettles(s: WriterState, c: Cell, duplicate: bool)
    requires s.Valid() && !s.closed
    requires CheckKey(s.cursor.lastCell, Some(c)) == Ok(duplicate)
    ensures s.CanFinishBlock()
    ensures var r := s.OpenBlock(duplicate);
      && Settled(r) && r.cursor.lastCell == s.cursor.lastCell
      && (r.cursor.lastCell.Some? ==> KeyLessEq(r.cursor.lastCell.value.key, c.key))
      && (r.cursor.firstCellInBlock.None? && r.cursor.lastCell.Some? ==> KeyLess(r.cursor.lastCell.value.key, c.key))
  {
    if !duplicate {
      CheckBlockBoundaryKeeps(s);
      var s1 := s.CheckBlockBoundary();
      if !s1.block.writing {
        SettledFacts(s1);
        NewBlockSettles(s1);
      }
    }
  }

  /** Adding the cell keeps the aggregates those of the cells appended, still in key order. */
  lemma AddCellKeepsAggregates(s: WriterState, c: Cell)
    requires s.Aggregates() && s.block.writing
    requires s.cursor.lastCell.Some? ==> KeyLessEq(s.cursor.lastCell.value.key, c.key)
    ensures s.AddCell(c).Aggregates()
  {
    var cells := s.history.cells;
    AddCountsCell(cells, c);
    SortedAppend(cells, c);
    assert (cells + [c])[|cells|] == c;
  }

  /** The blocks written all sort before the new last cell. */
  lemma AddCellKeepsIndexOrder(s: WriterState, c: Cell)
    requires s.IndexOrdered() && s.block.writing
    requires s.cursor.lastCell.Some? ==> KeyLessEq(s.cursor.lastCell.value.key, c.key)
    ensures s.AddCell(c).IndexOrdered()
  {
    if |s.history.sealed| > 0 {
      CompareKeysTransitive(s.history.sealed[|s.history.sealed| - 1].last.key, s.cursor.lastCell.value.key, c.key);
    }
  }

  /** The block now holds data, its first cell is no later than the new last cell and after the previous block. */
  lemma AddCellKeepsBlockState(s: WriterState, c: Cell)
    requires s.BlockState() && s.Ready() && s.block.writing
    requires s.cursor.lastCell.Some? ==> KeyLessEq(s.cursor.lastCell.value.key, c.key)
    requires s.cursor.firstCellInBlock.None? && s.cursor.lastCell.Some? ==> KeyLess(s.cursor.lastCell.value.key, c.key)
    ensures s.AddCell(c).BlockState() && s.AddCell(c).CanFinishBlock()
  {
    if s.cursor.firstCellInBlock.Some? {
      CompareKeysTransitive(s.cursor.firstCellInBlock.value.key, s.cursor.lastCell.value.key, c.key);
    }
    assert s.codec.rawSize(c) > 0;
  }

  /**
   * Adding a cell to the open block of a settled writer, when the cell
   * sorts no earlier than the last one (and strictly later when it starts
   * the block), leaves a valid open writer.
   */
  lemma AddCellKeepsValid(s: WriterState, c: Cell)
    requires Settled(s) && s.block.writing
    requires s.cursor.lastCell.Some? ==> KeyLessEq(s.cursor.lastCell.value.key, c.key)
    requires s.cursor.firstCellInBlock.None? && s.cursor.lastCell.Some? ==> KeyLess(s.cursor.lastCell.value.key, c.key)
    ensures s.AddCell(c).Valid() && !s.AddCell(c).closed && s.AddCell(c).outputStream == s.outputStream
  {
    AddCellKeepsAggregates(s, c);
    AddCellKeepsIndexOrder(s, c);
    AddCellKeepsBlockState(s, c);
  }

  /** append keeps an open writer valid and open, holding the same stream. */
  lemma AppendKeepsValid(s: WriterState, cell: Option<Cell>)
    requires s.Valid() && !s.closed
    ensures var r := s.Append(cell); r.Valid() && !r.closed && r.outputStream == s.outputStream
  {
    var check := CheckKey(s.cursor.lastCell, cell);
    if check.Ok? {
      AppendCheckedKeepsValid(s, cell.value, check.value);
    }
  }

  /** An accepted cell: append without the key check keeps the writer valid and open. */
  lemma AppendCheckedKeepsValid(s: WriterState, c: Cell, duplicate: bool)
    requires s.Valid() && !s.closed
    requires CheckKey(s.cursor.lastCell, Some(c)) == Ok(duplicate)
    ensures s.CanFinishBlock()
    ensures var r := s.AppendChecked(c, duplicate); r.Valid() && !r.closed && r.outputStream == s.outputStream
  {
    OpenBlockSettles(s, c, duplicate);
    AddCellKeepsValid(s.OpenBlock(duplicate), c);
  }

  // ---- meta blocks, file info, inline writers, Bloom filters ----

  lemma AppendMetaBlockKeepsValid(s: WriterState, name: Bytes, content: Bytes)
    ensures s.Valid() ==> s.AppendMetaBlock(name, content).Valid()
  {
    if s.Valid() {
      InsertKeepsSorted(s.metaNames, name);
    }
  }

  /** A key outside the reserved prefix keeps the file info free of reserved keys. */
  lemma AppendFileInfoKeepsInfo(s: WriterState, k: Bytes, v: Bytes)
    ensures s.InfoState() && !HasPrefix(k, RESERVED_PREFIX) ==> s.AppendFileInfo(k, v).InfoState()
  {
  }

  lemma AppendFileInfoKeepsValid(s: WriterState, k: Bytes, v: Bytes)
    ensures s.Valid() && !HasPrefix(k, RESERVED_PREFIX) ==> s.AppendFileInfo(k, v).Valid()
  {
    AppendFileInfoKeepsInfo(s, k, v);
  }

  lemma AddInlineBlockWriterKeepsValid(s: WriterState, w: InlineWriter)
    ensures s.Valid() ==> s.AddInlineBlockWriter(w).Valid()
  {
  }

  lemma AddBloomFilterKeepsValid(s: WriterState, bfw: BloomWriter, t: BlockType)
    ensures s.Valid() ==> s.AddBloomFilter(bfw, t).Valid()
  {
  }

  // ---- close ----

  /** The two root index blocks are whole blocks on the stream. */
  lemma RootIndexesWrite(s: WriterState)
    ensures WritesBlocks(s, s.WriteRootIndexes()) && !s.WriteRootIndexes().block.writing
  {
    var p1 := s.codec.payloadSize(RootIndexBlock, |s.dataBlocks.entries|);
    var s1 := s.WriteDataIndexRoot();
    WriteBlockWrites(s, RootIndexBlock, p1);
    WriteBlockWrites(s1, RootIndexBlock, s.codec.payloadSize(RootIndexBlock, |s1.metaIndex|));
    WritesTransitive(s, s1, s.WriteRootIndexes());
  }

  /** Completing the file info changes the file info and nothing else. */
  lemma FileInfoOnly(s: WriterState)
    ensures var f := s.AddMvccInfo().FinishFileInfo(); f == s.(fileInfo := f.fileInfo)
    ensures s.Consistent() ==> s.AddMvccInfo().FinishFileInfo().Consistent()
  {
  }

  /** Completing the file info and writing it keeps the writer consistent and leaves the block writer idle. */
  lemma FileInfoWrites(s: WriterState)
    ensures var (r, _) := s.AddMvccInfo().WriteFileInfo();
      && (s.Consistent() ==> r.Consistent()) && !r.block.writing
      && r.outputStream == s.outputStream && r.closeOutputStream == s.closeOutputStream
  {
    var f := s.AddMvccInfo().FinishFileInfo();
    FileInfoOnly(s);
    WriteBlockWrites(f, FileInfoBlock, f.codec.payloadSize(FileInfoBlock, |f.fileInfo|));
    WritesKeep(f, f.WriteBlock(FileInfoBlock, f.codec.payloadSize(FileInfoBlock, |f.fileInfo|)));
  }

  /** The load-on-open blocks keep the writer consistent and the block writer idle when it was. */
  lemma WriteLoadOnOpenKeeps(s: WriterState)
    ensures var r := s.WriteLoadOnOpen(|s.loadOnOpen|);
      && (s.Consistent() ==> r.Consistent()) && (!s.block.writing ==> !r.block.writing)
      && r.outputStream == s.outputStream && r.closeOutputStream == s.closeOutputStream
  {
    WriteLoadOnOpenWrites(s, |s.loadOnOpen|);
    WritesKeep(s, s.WriteLoadOnOpen(|s.loadOnOpen|));
  }

  /** The trailer keeps the writer consistent and closes it; the stream is dropped exactly when owned. */
  lemma FinishCloseKeeps(s: WriterState, fileInfoOffset: int, loadOnOpenOffset: int)
    ensures s.Consistent() ==> s.FinishClose(fileInfoOffset, loadOnOpenOffset).Consistent()
    ensures s.Ready() ==> var r := s.FinishClose(fileInfoOffset, loadOnOpenOffset);
      && r.closed && r.trailer.Some? && r.block == s.block
      && r.outputStream == (if s.closeOutputStream then null else s.outputStream)
  {
    if s.Consistent() {
      var written := s.out.Emit(TrailerBlock, TRAILER_SIZE);
      EmitKeepsValid(s.out, TrailerBlock, TRAILER_SIZE);
      IndexedOnLogExtends(s.out.log, written.log, s.history.sealedAt, s.dataBlocks.entries);
    }
  }

  /**
   * From the data block index on, close writes whole blocks and then the
   * trailer: the result is closed, its block writer idle, and the stream
   * dropped exactly when the writer owns it.
   */
  lemma WriteLoadOnOpenSectionCloses(s: WriterState)
    requires s.Consistent() && s.outputStream != null
    ensures var r := s.WriteLoadOnOpenSection();
      && r.Consistent() && r.closed && !r.block.writing && r.trailer.Some?
      && (r.outputStream == null <==> s.closeOutputStream)
      && (r.outputStream == null || r.outputStream == s.outputStream)
  {
    var s2 := s.WriteRootIndexes();
    RootIndexesWrite(s);
    WritesKeep(s, s2);
    FileInfoWrites(s2);
    var (s3, fileInfoOffset) := s2.AddMvccInfo().WriteFileInfo();
    WriteLoadOnOpenKeeps(s3);
    FinishCloseKeeps(s3.WriteLoadOnOpen(|s3.loadOnOpen|), fileInfoOffset, s.out.pos);
  }

  /** close leaves a valid writer closed, holding the stream or nothing. */
  lemma CloseKeepsValid(s: WriterState)
    ensures s.Valid() ==> s.Close().Valid() && s.Close().closed
    ensures s.Valid() ==> s.Close().outputStream == null || s.Close().outputStream == s.outputStream
  {
    if s.Valid() && s.outputStream != null {
      var t0 := s.FinishBlock();
      if !s.closed {
        FinishBlockDone(s);
      }
      var t1 := t0.WriteInlineBlocks(true);
      WriteInlineBlocksWrites(t0, true);
      WritesKeep(t0, t1);
      var t2 := t1.WriteMetaBlocks(|t1.metaNames|);
      WriteMetaBlocksWrites(t1, |t1.metaNames|);
      WritesKeep(t1, t2);
      WriteLoadOnOpenSectionCloses(t2);
    }
  }
}
