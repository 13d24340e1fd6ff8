/**
 * HFileWriterImpl: an append-only writer of one HFile. Cells arrive in key
 * order and are packed into data blocks; each data block written out gets an
 * entry in the data block index whose key is a short separator; at close the
 * meta blocks, the load-on-open section (indexes, file info, Bloom metadata)
 * and the fixed trailer follow, in that order.
 *
 * Every method is proved to move the writer from State() to the value the
 * matching function of WriterModel.WriterState gives; the properties of those
 * functions are proved in module WriterProps.
 */
module FileWriter {
  import opened Bytes
  import opened Cells
  import opened Errors
  import opened Context
  import opened Separator
  import opened Blocks
  import opened WriterSpec
  import opened WriterModel
  import opened WriterProps

  /** A block type addBloomFilter accepts. */
  predicate IsBloomMeta(t: BlockType) {
    t == GeneralBloomMetaBlock || t == DeleteFamilyBloomMetaBlock
  }

  class HFileWriter {
    const context: HFileContext
    /** The file path, when the writer opened the stream itself. */
    const path: Option<string>
    /** Whether the writer owns (and so closes) the stream. */
    const closeOutputStream: bool
    /** The block size limit after encoding; 0 when the unified encoded size ratio is not set. */
    const encodedBlockSizeLimit: int
    const blockWriter: BlockWriter
    /** The stream the writer was given; outputStream is the field close() clears. */
    const sink: Sink

    var outputStream: Sink?
    var cursor: CellCursor
    var stats: CellStats
    var dataBlocks: DataBlocks
    var totalUncompressedBytes: nat
    var metaNames: seq<Bytes>
    /** The meta blocks' contents, as the bytes they serialize to. */
    var metaData: seq<Bytes>
    /** The inline block writers, the data block index's own leaf writer first. */
    var inlineWriters: seq<InlineWriter>
    /** The entries the meta block index writer has been given. */
    var metaIndex: seq<MetaIndexEntry>
    /** additionalLoadOnOpenData. */
    var loadOnOpen: seq<LoadOnOpenBlock>
    var fileInfo: map<InfoKey, InfoValue>
    /** The trailer close() wrote, once it has. */
    var trailer: Option<Trailer>

    /** Whether close() has written the file out. */
    ghost var closed: bool
    ghost var history: History

    /** The writer, its block writer and its stream, as one value. */
    ghost function State(): WriterState
      reads this, blockWriter, sink
    {
      WriterState(
        context, closeOutputStream, encodedBlockSizeLimit, blockWriter.codec, outputStream, cursor, stats,
        totalUncompressedBytes, metaNames, metaData, dataBlocks, inlineWriters, metaIndex, loadOnOpen,
        fileInfo, trailer, closed, history, blockWriter.View(), sink.View())
    }

    /**
     * The writer's invariant: that of its state, the stream owned exactly when
     * a path was given, and the stream reference either the stream or dropped.
     */
    ghost predicate Valid()
      reads this, blockWriter, sink
    {
      && State().Valid()
      && closeOutputStream == path.Some?
      && (outputStream == null || outputStream == sink)
    }

    /**
     * The constructor with finishInit: the stream, the context, the encoded
     * block size limit (already derived from the configured ratio) and a block
     * writer that is not yet writing; the data block index's leaf writer is
     * the first inline writer.
     */
    constructor(context: HFileContext, path: Option<string>, encodedBlockSizeLimit: int, codec: Codec, sink: Sink)
      requires context.cellComparator.Some? && context.compressAlgo.Some? && context.cryptoContext.Some?
      requires codec.Valid() && sink.View().Valid()
      ensures State() == InitialState(context, path.Some?, encodedBlockSizeLimit, codec, sink, sink.View())
      ensures Valid() && !closed && fresh(blockWriter)
      ensures this.path == path && this.sink == sink
    {
      this.context := context;
      this.path := path;
      closeOutputStream := path.Some?;
      this.encodedBlockSizeLimit := encodedBlockSizeLimit;
      blockWriter := new BlockWriter(codec);
      this.sink := sink;
      outputStream := sink;
      cursor := CellCursor(None, None, None);
      stats := CellStats(0, 0, 0, 0, None, 0, 0);
      dataBlocks := DataBlocks(UNSET, UNSET, []);
      totalUncompressedBytes := 0;
      metaNames := [];
      metaData := [];
      inlineWriters := [InlineWriter(LeafIndexBlock, [], 0, [])];
      metaIndex := [];
      loadOnOpen := [];
      fileInfo := map[];
      trailer := None;
      closed := false;
      history := History([], [], []);
      new;
      InitialStateValid(context, path.Some?, encodedBlockSizeLimit, codec, sink, sink.View());
    }

    // ---- appending cells ----

    /**
     * append: check the key, write the block out at a boundary (unless the
     * key repeats the last one), open a block if none is open, and add the
     * cell to the block and to the statistics. A rejected cell changes nothing.
     */
    method Append(cell: Option<Cell>) returns (o: Outcome)
      requires Valid() && !closed
      modifies this, blockWriter, sink
      ensures State() == old(State()).Append(cell)
      ensures Valid() && !closed
      ensures o.Fail? <==> CheckKey(old(cursor.lastCell), cell).Err?
      ensures o.Fail? ==> o.error == CheckKey(old(cursor.lastCell), cell).error
    {
      ghost var s := State();
      AppendKeepsValid(s, cell);
      var check := CheckKey(cursor.lastCell, cell);
      if check.Err? {
        return Fail(check.error);
      }
      var dupKey := check.value;
      if !dupKey {
        CheckBlockBoundary();
      }
      if !blockWriter.writing {
        NewBlock();
      }
      AddCell(cell.value);
      o := Done;
    }

    /** The rest of append, once a block is open: the cell joins the block, the statistics and the cursor. */
    method AddCell(c: Cell)
      requires blockWriter.writing
      modifies this, blockWriter
      ensures State() == old(State()).AddCell(c)
    {
      blockWriter.Write(c);
      stats := stats.Add(c);
      var first := if cursor.firstCellInBlock.None? then Some(c) else cursor.firstCellInBlock;
      cursor := cursor.(firstCellInBlock := first, lastCell := Some(c));
      history := history.(cells := history.cells + [c]);
    }

    /** newBlock: start a DATA block. */
    method NewBlock()
      modifies this, blockWriter
      ensures State() == old(State()).NewBlock()
    {
      blockWriter.StartWriting(DataBlock);
      cursor := cursor.(firstCellInBlock := None,
                        lastCellOfPreviousBlock :=
                          if cursor.lastCell.Some? then cursor.lastCell else cursor.lastCellOfPreviousBlock);
    }

    /** finishBlock: write the block in progress out and index it. */
    method FinishBlock()
      requires State().CanFinishBlock()
      modifies this, blockWriter, sink
      ensures State() == old(State()).FinishBlock()
    {
      if !blockWriter.writing || blockWriter.View().BlockSizeWritten() == 0 {
        return;
      }
      var offset := sink.pos;
      ghost var at := |sink.log|;
      blockWriter.WriteHeaderAndData(sink);
      var onDiskSize := blockWriter.onDiskSizeWithHeader;
      var indexEntry := MidpointOf(context.cellComparator.value, cursor.lastCellOfPreviousBlock,
                                   cursor.firstCellInBlock.value);
      dataBlocks := DataBlocks(
        if dataBlocks.firstDataBlockOffset == UNSET then offset else dataBlocks.firstDataBlockOffset,
        offset,
        dataBlocks.entries + [DataIndexEntry(indexEntry.key, offset, onDiskSize)]);
      totalUncompressedBytes := totalUncompressedBytes + blockWriter.uncompressedSizeWithHeader;
      history := history.(sealed := history.sealed + [SealedBlock(cursor.firstCellInBlock.value, cursor.lastCell.value)],
                          sealedAt := history.sealedAt + [at]);
    }

    /** One whole block of the given type: start it, write its payload, put it on the stream. */
    method WriteBlock(t: BlockType, payload: nat)
      modifies this, blockWriter, sink
      ensures State() == old(State()).WriteBlock(t, payload)
    {
      blockWriter.StartWriting(t);
      blockWriter.WriteBytes(payload);
      blockWriter.WriteHeaderAndData(sink);
      totalUncompressedBytes := totalUncompressedBytes + blockWriter.uncompressedSizeWithHeader;
    }

    /** writeInlineBlocks' inner loop, for one inline writer. */
    method DrainInlineWriter(w0: InlineWriter, closing: bool) returns (w: InlineWriter)
      modifies this, blockWriter, sink
      ensures (State(), w) == old(State()).DrainInline(w0, closing)
    {
      w := w0;
      while ShouldWriteBlock(w, closing)
        invariant State().DrainInline(w, closing) == old(State()).DrainInline(w0, closing)
        decreases Pending(w, closing)
      {
        var offset := sink.pos;
        WriteBlock(w.blockType, NextChunk(w, closing));
        w := BlockWritten(TakeChunk(w, closing), offset, blockWriter.onDiskSizeWithHeader);
      }
    }

    /** writeInlineBlocks: each inline writer in turn writes blocks while it wants to. */
    method WriteInlineBlocks(closing: bool)
      modifies this, blockWriter, sink
      ensures State() == old(State()).WriteInlineBlocks(closing)
    {
      ghost var s := State();
      var writers := inlineWriters;
      var drained: seq<InlineWriter> := [];
      for k := 0 to |writers|
        invariant (State(), drained) == s.DrainAll(writers[..k], closing)
      {
        var w := DrainInlineWriter(writers[k], closing);
        assert writers[..k + 1][..k] == writers[..k];
        drained := drained + [w];
      }
      assert writers[..|writers|] == writers;
      inlineWriters := drained;
    }

    /** checkBlockBoundary: at a block boundary, write the block and the inline blocks, and open a new block. */
    method CheckBlockBoundary()
      requires State().CanFinishBlock()
      modifies this, blockWriter, sink
      ensures State() == old(State()).CheckBlockBoundary()
    {
      var shouldFinishBlock: bool;
      if encodedBlockSizeLimit > 0 {
        shouldFinishBlock := blockWriter.View().EncodedBlockSizeWritten() >= encodedBlockSizeLimit;
      } else {
        shouldFinishBlock := blockWriter.View().EncodedBlockSizeWritten() >= context.blockSize
                             || blockWriter.View().BlockSizeWritten() >= context.blockSize;
      }
      shouldFinishBlock := shouldFinishBlock
                           && blockWriter.codec.boundary(blockWriter.View().BlockSizeWritten(),
                                                         blockWriter.View().EncodedBlockSizeWritten());
      if shouldFinishBlock {
        FinishBlock();
        WriteInlineBlocks(false);
        NewBlock();
      }
    }

    // ---- meta blocks, file info, inline writers, Bloom filters ----

    /** appendMetaBlock: insert the name after every name that sorts no later, and the content beside it. */
    method AppendMetaBlock(name: Bytes, content: Bytes)
      requires Valid()
      modifies this
      ensures State() == old(State()).AppendMetaBlock(name, content)
      ensures Valid() && closed == old(closed)
    {
      ghost var s := State();
      var i := 0;
      while i < |metaNames|
        invariant i <= |metaNames|
        invariant forall j :: 0 <= j < i ==> Compare(metaNames[j], name) <= 0
      {
        if Compare(metaNames[i], name) > 0 {
          break;
        }
        i := i + 1;
      }
      InsertionIndexIsFirstGreater(metaNames, name, i);
      metaNames := metaNames[..i] + [name] + metaNames[i..];
      metaData := metaData[..i] + [content] + metaData[i..];
      AppendMetaBlockKeepsValid(s, name, content);
    }

    /** appendFileInfo: HFileInfo refuses a key with the reserved prefix; any other key is set. */
    method AppendFileInfo(k: Bytes, v: Bytes) returns (o: Outcome)
      requires Valid()
      modifies this
      ensures o == (if HasPrefix(k, RESERVED_PREFIX) then Fail(ReservedKey) else Done)
      ensures State() == if o.Fail? then old(State()) else old(State()).AppendFileInfo(k, v)
      ensures Valid() && closed == old(closed)
    {
      if HasPrefix(k, RESERVED_PREFIX) {
        return Fail(ReservedKey);
      }
      ghost var s := State();
      fileInfo := fileInfo[Named(k) := RawValue(v)];
      AppendFileInfoKeepsValid(s, k, v);
      o := Done;
    }

    /** addInlineBlockWriter: the writer joins the end of the list. */
    method AddInlineBlockWriter(w: InlineWriter)
      requires Valid()
      modifies this
      ensures State() == old(State()).AddInlineBlockWriter(w)
      ensures Valid() && closed == old(closed)
    {
      ghost var s := State();
      inlineWriters := inlineWriters + [w];
      AddInlineBlockWriterKeepsValid(s, w);
    }

    /**
     * addBloomFilter: a filter without keys is ignored; a block type other
     * than the two Bloom metadata types is refused; otherwise the filter's
     * blocks join the load-on-open data.
     */
    method AddBloomFilter(bfw: BloomWriter, blockType: BlockType) returns (o: Outcome)
      requires Valid()
      modifies this
      ensures o == (if bfw.keyCount > 0 && !IsBloomMeta(blockType) then Fail(UnsupportedBlockType) else Done)
      ensures State() == if bfw.keyCount > 0 && IsBloomMeta(blockType) then old(State()).AddBloomFilter(bfw, blockType)
                         else old(State())
      ensures Valid() && closed == old(closed)
    {
      ghost var s := State();
      AddBloomFilterKeepsValid(s, bfw, blockType);
      if bfw.keyCount <= 0 {
        return Done;
      }
      if blockType != GeneralBloomMetaBlock && blockType != DeleteFamilyBloomMetaBlock {
        return Fail(UnsupportedBlockType);
      }
      var size := bfw.metaSize + (if bfw.dataSize.Some? then bfw.dataSize.value else 0);
      loadOnOpen := loadOnOpen + [LoadOnOpenBlock(blockType, size)];
      o := Done;
    }

    /** addGeneralBloomFilter. */
    method AddGeneralBloomFilter(bfw: BloomWriter)
      requires Valid()
      modifies this
      ensures State() == if bfw.keyCount > 0 then old(State()).AddBloomFilter(bfw, GeneralBloomMetaBlock)
                         else old(State())
      ensures Valid() && closed == old(closed)
    {
      var _ := AddBloomFilter(bfw, GeneralBloomMetaBlock);
    }

    /** addDeleteFamilyBloomFilter. */
    method AddDeleteFamilyBloomFilter(bfw: BloomWriter)
      requires Valid()
      modifies this
      ensures State() == if bfw.keyCount > 0 then old(State()).AddBloomFilter(bfw, DeleteFamilyBloomMetaBlock)
                         else old(State())
      ensures Valid() && closed == old(closed)
    {
      var _ := AddBloomFilter(bfw, DeleteFamilyBloomMetaBlock);
    }

    // ---- close ----

    /**
     * close: nothing once the stream reference is gone; otherwise the last
     * data block, the inline blocks, the meta blocks, the load-on-open section
     * and the trailer.
     */
    method Close()
      requires Valid()
      modifies this, blockWriter, sink
      ensures State() == old(State()).Close()
      ensures Valid() && closed
    {
      ghost var s := State();
      CloseKeepsValid(s);
      if outputStream == null {
        return;
      }
      FinishBlock();
      WriteInlineBlocks(true);
      WriteMetaBlocks();
      WriteLoadOnOpenSection();
    }

    /** close's meta block loop: each meta block written, then added to the meta block index. */
    method WriteMetaBlocks()
      requires |metaNames| == |metaData|
      modifies this, blockWriter, sink
      ensures State() == old(State()).WriteMetaBlocks(|old(metaNames)|)
    {
      var w := this;
      ghost var s := w.State();
      for i := 0 to |w.metaNames|
        invariant w.State() == s.WriteMetaBlocks(i)
      {
        w.WriteMetaBlock(w.metaNames[i], w.metaData[i]);
      }
    }

    /** One pass of close's meta block loop: the block, then its index entry at the offset it starts at. */
    method WriteMetaBlock(name: Bytes, content: Bytes)
      modifies this, blockWriter, sink
      ensures State() == old(State()).WriteMetaBlock(name, content)
    {
      var offset := sink.pos;
      WriteBlock(MetaBlock, |content|);
      metaIndex := metaIndex + [MetaIndexEntry(name, offset, blockWriter.onDiskSizeWithHeader)];
    }

    /** close from the data block index on: both indexes, the file info, the load-on-open blocks, the trailer. */
    method WriteLoadOnOpenSection()
      requires State().Ready()
      modifies this, blockWriter, sink
      ensures State() == old(State()).WriteLoadOnOpenSection()
    {
      var rootIndexOffset := sink.pos;
      WriteRootIndexes();
      AddMvccInfo();
      var fileInfoOffset := WriteFileInfo();
      WriteLoadOnOpen();
      FinishClose(fileInfoOffset, rootIndexOffset);
    }

    /** The root blocks of the data block index and of the meta block index. */
    method WriteRootIndexes()
      modifies this, blockWriter, sink
      ensures State() == old(State()).WriteRootIndexes()
    {
      WriteDataIndexRoot();
      WriteBlock(RootIndexBlock, blockWriter.codec.payloadSize(RootIndexBlock, |metaIndex|));
    }

    /** writeIndexBlocks of the single-level data block index: its root block, not counted in totalUncompressedBytes. */
    method WriteDataIndexRoot()
      modifies blockWriter, sink
      ensures State() == old(State()).WriteDataIndexRoot()
    {
      blockWriter.StartWriting(RootIndexBlock);
      blockWriter.WriteBytes(blockWriter.codec.payloadSize(RootIndexBlock, |dataBlocks.entries|));
      blockWriter.WriteHeaderAndData(sink);
    }

    /**
     * The two file-info entries close adds through appendFileInfo when the
     * context includes MVCC versions; neither key has the reserved prefix, so
     * neither append is refused.
     */
    method AddMvccInfo()
      modifies this
      ensures State() == old(State()).AddMvccInfo()
    {
      if context.includesMvcc {
        fileInfo := fileInfo[Named(MAX_MEMSTORE_TS_KEY) := LongValue(stats.maxMemstoreTS)]
                            [Named(KEY_VALUE_VERSION) := IntValue(KEY_VALUE_VER_WITH_MEMSTORE)];
      }
    }

    /** writeFileInfo: note where the file info block starts, complete the file info, write it. */
    method WriteFileInfo() returns (fileInfoOffset: nat)
      modifies this, blockWriter, sink
      ensures (State(), fileInfoOffset) == old(State()).WriteFileInfo()
    {
      fileInfoOffset := sink.pos;
      FinishFileInfo();
      WriteBlock(FileInfoBlock, blockWriter.codec.payloadSize(FileInfoBlock, |fileInfo|));
    }

    /** finishFileInfo: the file-wide statistics under their reserved keys. */
    method FinishFileInfo()
      modifies this
      ensures State() == old(State()).FinishFileInfo()
    {
      var info := fileInfo;
      if cursor.lastCell.Some? {
        info := info[LastKey := KeyBytes(cursor.lastCell.value.key)];
      }
      var avgKeyLen := if stats.entryCount == 0 then 0 else ToInt32(stats.totalKeyLength / stats.entryCount);
      info := info[AvgKeyLen := IntValue(avgKeyLen)];
      info := info[CreateTimeTs := LongValue(context.fileCreateTime)];
      var avgValueLen := if stats.entryCount == 0 then 0 else ToInt32(stats.totalValueLength / stats.entryCount);
      info := info[AvgValueLen := IntValue(avgValueLen)];
      if stats.keyOfBiggestCell.Some? {
        info := info[KeyOfBiggestCell := KeyBytes(stats.keyOfBiggestCell.value)];
        info := info[LenOfBiggestCell := LongValue(stats.lenOfBiggestCell)];
      }
      if context.includesTags {
        info := info[MaxTagsLen := IntValue(stats.maxTagsLength)];
        var tagsCompressed := context.encoding != NoEncoding && context.compressTags;
        info := info[TagsCompressed := BoolValue(tagsCompressed)];
      }
      fileInfo := info;
    }

    /** close's loop over additionalLoadOnOpenData. */
    method WriteLoadOnOpen()
      modifies this, blockWriter, sink
      ensures State() == old(State()).WriteLoadOnOpen(|old(loadOnOpen)|)
    {
      var w := this;
      ghost var s := w.State();
      for i := 0 to |w.loadOnOpen|
        invariant w.State() == s.WriteLoadOnOpen(i)
      {
        var b := w.loadOnOpen[i];
        w.WriteBlock(b.blockType, b.size);
      }
    }

    /** finishClose: complete the trailer and write it; close and drop the stream when the writer owns it. */
    method FinishClose(fileInfoOffset: int, loadOnOpenOffset: int)
      requires State().Ready()
      modifies this, sink
      ensures State() == old(State()).FinishClose(fileInfoOffset, loadOnOpenOffset)
    {
      var t := Trailer(
        MAJOR_VERSION, MAX_MINOR_VERSION, fileInfoOffset, loadOnOpenOffset,
        dataBlocks.firstDataBlockOffset, dataBlocks.lastDataBlockOffset, context.cellComparator.value,
        |dataBlocks.entries|, |metaNames|, totalUncompressedBytes + TRAILER_SIZE, stats.entryCount,
        context.compressAlgo.value, context.cryptoContext.value != NoEncryption);
      sink.Emit(TrailerBlock, TRAILER_SIZE);
      trailer := Some(t);
      if closeOutputStream {
        sink.Close();
        outputStream := null;
      }
      closed := true;
    }
  }
}
