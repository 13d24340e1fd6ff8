/**
 * The HFile writer's state as a value, and what each of its operations does
 * to that value. The writer class in module FileWriter is proved to move its
 * fields exactly as these functions say; the properties of the writer are
 * proved here, about the functions.
 */
module WriterModel {
  import opened Bytes
  import opened Cells
  import opened Errors
  import opened Context
  import opened Separator
  import opened Blocks
  import opened WriterSpec

  /** The cells the writer holds on to between appends. */
  datatype CellCursor = CellCursor(
    lastCell: Option<Cell>,
    firstCellInBlock: Option<Cell>,
    lastCellOfPreviousBlock: Option<Cell>)

  /** The data block index writer's entries, with the offsets of the first and last data block. */
  datatype DataBlocks = DataBlocks(
    firstDataBlockOffset: int,
    lastDataBlockOffset: int,
    entries: seq<DataIndexEntry>)

  /**
   * What the proofs keep track of: the cells appended, the first and last
   * cell of each data block written, and where in the stream's block log
   * each indexed data block is.
   */
  datatype History = History(cells: seq<Cell>, sealed: seq<SealedBlock>, sealedAt: seq<nat>)

  /**
   * checkKey: a null cell and a key below the last one are errors; a key
   * equal to the last one is reported as a duplicate.
   */
  function CheckKey(lastCell: Option<Cell>, cell: Option<Cell>): (r: Result<bool>)
    ensures r == Err(NullKey) <==> cell.None?
    ensures r == Err(OutOfOrder) <==>
              cell.Some? && lastCell.Some? && KeyLess(cell.value.key, lastCell.value.key)
    ensures r == Ok(true) <==> cell.Some? && lastCell.Some? && cell.value.key == lastCell.value.key
    ensures r == Ok(false) <==>
              cell.Some? && (lastCell.None? || KeyLess(lastCell.value.key, cell.value.key))
  {
    if cell.None? then Err(NullKey)
    else if lastCell.None? then Ok(false)
    else
      var keyComp := CompareKeys(lastCell.value.key, cell.value.key);
      CompareKeysAntisymmetric(lastCell.value.key, cell.value.key);
      if keyComp > 0 then Err(OutOfOrder)
      else if keyComp == 0 then Ok(true)
      else Ok(false)
  }

  /** getMidpoint on a right cell and a left cell that sorts no later, where it cannot fail. */
  function MidpointOf(comparator: CellComparator, left: Option<Cell>, right: Cell): (m: Cell)
    requires left.Some? ==> KeyLessEq(left.value.key, right.key)
    ensures GetMidpoint(comparator, left, Some(right)) == Ok(m)
  {
    if left.Some? then GetMidpointSeparates(comparator, left.value, right); GetMidpoint(comparator, left, Some(right)).value
    else GetMidpoint(comparator, left, Some(right)).value
  }

  /**
   * The writer as the constructor and finishInit leave it: nothing appended,
   * both data block offsets UNSET, the block writer idle, and the data block
   * index's leaf writer as the only inline writer.
   */
  ghost function InitialState(context: HFileContext, closeOutputStream: bool, encodedBlockSizeLimit: int,
                              codec: Codec, stream: Sink, view: StreamView): WriterState
  {
    WriterState(
      context, closeOutputStream, encodedBlockSizeLimit, codec, stream, CellCursor(None, None, None),
      StatsOf([]), 0, [], [], DataBlocks(UNSET, UNSET, []), [InlineWriter(LeafIndexBlock, [], 0, [])],
      [], [], map[], None, false, History([], [], []), IdleBlock, view)
  }

  /**
   * Every field of HFileWriterImpl that changes after construction (the
   * cells it holds on to, its statistics and its data block offsets grouped
   * as above), those it reads but never changes (the context, the encoded
   * block size limit, whether it owns the stream, the block codec), the block
   * writer and the stream, and two ghost fields: whether close() has written
   * the file, and its history.
   */
  datatype WriterState = WriterState(
    context: HFileContext,
    closeOutputStream: bool,
    encodedBlockSizeLimit: int,
    codec: Codec,
    outputStream: Sink?,
    cursor: CellCursor,
    stats: CellStats,
    totalUncompressedBytes: nat,
    metaNames: seq<Bytes>,
    metaData: seq<Bytes>,
    dataBlocks: DataBlocks,
    inlineWriters: seq<InlineWriter>,
    metaIndex: seq<MetaIndexEntry>,
    loadOnOpen: seq<LoadOnOpenBlock>,
    fileInfo: map<InfoKey, InfoValue>,
    trailer: Option<Trailer>,
    closed: bool,
    history: History,
    block: BlockView,
    out: StreamView)
  {
    // ---- invariants ----

    /** What finishInit and the context guarantee: without these, append and close dereference null. */
    ghost predicate Ready() {
      context.cellComparator.Some? && context.compressAlgo.Some? && context.cryptoContext.Some? && codec.Valid()
    }

    /** Meta block names are sorted and aligned with their contents. */
    ghost predicate MetaState() {
      |metaNames| == |metaData| && NamesSorted(metaNames)
    }

    /** Before close, the file info holds only keys added through appendFileInfo, none of them reserved. */
    ghost predicate InfoState() {
      !closed ==> forall k :: k in fileInfo ==> k.Named? && !HasPrefix(k.name, RESERVED_PREFIX)
    }

    /** The running aggregates are those of the cells appended so far, which are in key order. */
    ghost predicate Aggregates() {
      && stats == StatsOf(history.cells)
      && cursor.lastCell == (if |history.cells| == 0 then None else Some(history.cells[|history.cells| - 1]))
      && SortedByKey(history.cells)
    }

    /** The last cell of the last data block written out, if any. */
    ghost function LastSealed(): Option<Cell> {
      if |history.sealed| == 0 then None else Some(history.sealed[|history.sealed| - 1].last)
    }

    /** Each index key separates its block from the one before, and the blocks precede the last cell. */
    ghost predicate IndexOrdered() {
      && SeparatesBlocks(dataBlocks.entries, history.sealed)
      && (|history.sealed| > 0 ==> cursor.lastCell.Some? && KeyLessEq(history.sealed[|history.sealed| - 1].last.key, cursor.lastCell.value.key))
    }

    /** Each index entry names a data block on the stream, and the first/last offsets are the index's ends. */
    ghost predicate IndexOnDisk() {
      && IndexedOnLog(out.log, history.sealedAt, dataBlocks.entries)
      && dataBlocks.firstDataBlockOffset == (if |dataBlocks.entries| == 0 then UNSET else dataBlocks.entries[0].offset)
      && dataBlocks.lastDataBlockOffset == (if |dataBlocks.entries| == 0 then UNSET else dataBlocks.entries[|dataBlocks.entries| - 1].offset)
    }

    /**
     * The data block in progress: it is a DATA block; it has a first cell
     * exactly when it has bytes; that first cell follows the previous block's
     * last cell strictly and precedes the last cell appended.
     */
    ghost predicate BlockState() {
      && (block.writing ==> block.blockType == DataBlock)
      && (cursor.firstCellInBlock.Some? <==> block.writing && block.rawSize > 0)
      && cursor.lastCellOfPreviousBlock == LastSealed()
      && (cursor.firstCellInBlock.None? ==> cursor.lastCell == cursor.lastCellOfPreviousBlock)
      && (cursor.firstCellInBlock.Some? ==>
            && cursor.lastCell.Some? && KeyLessEq(cursor.firstCellInBlock.value.key, cursor.lastCell.value.key)
            && (cursor.lastCellOfPreviousBlock.Some? ==>
                  KeyLess(cursor.lastCellOfPreviousBlock.value.key, cursor.firstCellInBlock.value.key)))
    }

    /** What holds in every state, open or closed, apart from the file info's keys. */
    ghost predicate Consistent() {
      && Ready()
      && out.Valid()
      && MetaState()
      && Aggregates()
      && IndexOrdered()
      && IndexOnDisk()
    }

    /**
     * The writer's invariant. Open: the file info holds no reserved key, the
     * block bookkeeping holds, a cell appended is in the block in progress,
     * the stream is held. Closed: no block is in progress, a trailer was
     * written, and the stream reference is dropped exactly when the writer
     * owns the stream. In both, finishBlock's midpoint can be computed.
     */
    ghost predicate Valid() {
      && Consistent()
      && InfoState()
      && CanFinishBlock()
      && (closed ==> !block.writing && trailer.Some? && (outputStream == null <==> closeOutputStream))
      && (!closed ==> BlockState() && (cursor.lastCell.Some? ==> cursor.firstCellInBlock.Some?) && outputStream != null)
    }

    // ---- appending cells ----

    /** newBlock: start a DATA block; the last cell appended becomes the previous block's last cell. */
    ghost function NewBlock(): WriterState {
      this.(block := block.StartWriting(DataBlock),
            cursor := cursor.(firstCellInBlock := None,
                              lastCellOfPreviousBlock :=
                                if cursor.lastCell.Some? then cursor.lastCell else cursor.lastCellOfPreviousBlock))
    }

    /**
     * What finishBlock needs of a non-empty block in progress: a comparator,
     * a first and a last cell, and the previous block's last cell sorting no
     * later than the first; getMidpoint then succeeds (GetMidpointSeparates).
     */
    ghost predicate CanFinishBlock() {
      block.writing && block.rawSize > 0 ==>
        && context.cellComparator.Some? && cursor.firstCellInBlock.Some? && cursor.lastCell.Some?
        && (cursor.lastCellOfPreviousBlock.Some? ==>
              KeyLessEq(cursor.lastCellOfPreviousBlock.value.key, cursor.firstCellInBlock.value.key))
    }

    /**
     * The part of finishBlock past its early return: record the block's
     * offset (the first one only once), write it out, and index it under the
     * separator between the previous block's last cell and its first cell.
     */
    ghost function SealDataBlock(): WriterState
      requires block.writing && block.rawSize > 0 && CanFinishBlock()
    {
      var offset := out.pos;
      var finished := block.Finish(codec);
      var midpoint := MidpointOf(context.cellComparator.value, cursor.lastCellOfPreviousBlock, cursor.firstCellInBlock.value);
      this.(dataBlocks := DataBlocks(
              if dataBlocks.firstDataBlockOffset == UNSET then offset else dataBlocks.firstDataBlockOffset,
              offset,
              dataBlocks.entries + [DataIndexEntry(midpoint.key, offset, finished.onDiskSizeWithHeader)]),
            block := finished,
            out := out.Emit(block.blockType, finished.onDiskSizeWithHeader),
            totalUncompressedBytes := totalUncompressedBytes + finished.uncompressedSizeWithHeader,
            history := history.(sealed := history.sealed + [SealedBlock(cursor.firstCellInBlock.value, cursor.lastCell.value)],
                                sealedAt := history.sealedAt + [|out.log|]))
    }

    /** finishBlock: nothing when no block is in progress or it is empty. */
    ghost function FinishBlock(): WriterState
      requires CanFinishBlock()
    {
      if !block.writing || block.BlockSizeWritten() == 0 then this else SealDataBlock()
    }

    /**
     * startWriting, the payload, writeHeaderAndData, and the uncompressed
     * bytes counted: one block that is not a data block.
     */
    ghost function WriteBlock(t: BlockType, payload: nat): WriterState {
      var finished := block.StartWriting(t).WriteBytes(payload).Finish(codec);
      this.(block := finished,
            out := out.Emit(t, finished.onDiskSizeWithHeader),
            totalUncompressedBytes := totalUncompressedBytes + finished.uncompressedSizeWithHeader)
    }

    /** One pass of writeInlineBlocks' inner loop: the writer's next chunk becomes a block, and it learns where. */
    ghost function WriteInlineBlock(w: InlineWriter, closing: bool): (WriterState, InlineWriter)
      requires ShouldWriteBlock(w, closing)
    {
      var s := WriteBlock(w.blockType, NextChunk(w, closing));
      (s, BlockWritten(TakeChunk(w, closing), out.pos, s.block.onDiskSizeWithHeader))
    }

    /** writeInlineBlocks' inner loop: one writer writes blocks for as long as it wants to. */
    ghost function DrainInline(w: InlineWriter, closing: bool): (r: (WriterState, InlineWriter))
      ensures r.0 == this.(block := r.0.block, out := r.0.out, totalUncompressedBytes := r.0.totalUncompressedBytes)
      decreases Pending(w, closing)
    {
      if !ShouldWriteBlock(w, closing) then (this, w)
      else
        var (s, w') := WriteInlineBlock(w, closing);
        s.DrainInline(w', closing)
    }

    /** writeInlineBlocks' outer loop over the given writers, in order, with the writers as they end up. */
    ghost function DrainAll(ws: seq<InlineWriter>, closing: bool): (r: (WriterState, seq<InlineWriter>))
      ensures r.0 == this.(block := r.0.block, out := r.0.out, totalUncompressedBytes := r.0.totalUncompressedBytes)
      decreases |ws|
    {
      if |ws| == 0 then (this, [])
      else
        var (s, done) := DrainAll(ws[..|ws| - 1], closing);
        var (s', w) := s.DrainInline(ws[|ws| - 1], closing);
        (s', done + [w])
    }

    /** writeInlineBlocks: let each inline writer, in order, write blocks while it wants to. */
    ghost function WriteInlineBlocks(closing: bool): WriterState {
      var (s, ws) := DrainAll(inlineWriters, closing);
      s.(inlineWriters := ws)
    }

    /** The block-boundary test of checkBlockBoundary on this state. */
    ghost predicate ShouldFinish() {
      ShouldFinishBlock(block, codec, encodedBlockSizeLimit, context.blockSize)
    }

    /** checkBlockBoundary: when the block is full, write it out, let inline writers write, and start a new one. */
    ghost function CheckBlockBoundary(): WriterState
      requires CanFinishBlock()
    {
      if ShouldFinish() then FinishBlock().WriteInlineBlocks(false).NewBlock() else this
    }

    /** The bookkeeping of append once the block is open: the cell joins the block and the aggregates. */
    ghost function AddCell(c: Cell): WriterState
      requires block.writing
    {
      this.(block := block.Write(codec, c),
            stats := stats.Add(c),
            cursor := cursor.(firstCellInBlock := if cursor.firstCellInBlock.None? then Some(c) else cursor.firstCellInBlock,
                              lastCell := Some(c)),
            history := history.(cells := history.cells + [c]))
    }

    /**
     * append once checkKey has passed, up to adding the cell: check the
     * boundary unless the key repeats, then open a block if none is open.
     */
    ghost function OpenBlock(duplicate: bool): (r: WriterState)
      requires CanFinishBlock()
      ensures r.block.writing
    {
      var s := if duplicate then this else CheckBlockBoundary();
      if s.block.writing then s else s.NewBlock()
    }

    /** append once checkKey has passed: open a block as needed, then add the cell. */
    ghost function AppendChecked(c: Cell, duplicate: bool): WriterState
      requires CanFinishBlock()
    {
      OpenBlock(duplicate).AddCell(c)
    }

    /** append: a cell checkKey rejects leaves the writer as it was. */
    ghost function Append(cell: Option<Cell>): WriterState
      requires CanFinishBlock()
    {
      match CheckKey(cursor.lastCell, cell)
      case Err(_) => this
      case Ok(duplicate) => AppendChecked(cell.value, duplicate)
    }

    // ---- meta blocks, file info, Bloom filters ----

    /** appendMetaBlock: insert the name after every name that sorts no later, and the content at the same place. */
    ghost function AppendMetaBlock(name: Bytes, content: Bytes): WriterState
      requires |metaNames| == |metaData|
    {
      var i := InsertionIndex(metaNames, name);
      this.(metaNames := metaNames[..i] + [name] + metaNames[i..],
            metaData := metaData[..i] + [content] + metaData[i..])
    }

    /** appendFileInfo past HFileInfo's reserved-prefix check. */
    ghost function AppendFileInfo(k: Bytes, v: Bytes): WriterState {
      this.(fileInfo := fileInfo[Named(k) := RawValue(v)])
    }

    /** addInlineBlockWriter: the writer joins the end of the list. */
    ghost function AddInlineBlockWriter(w: InlineWriter): WriterState {
      this.(inlineWriters := inlineWriters + [w])
    }

    /** addBloomFilter past its checks: the filter's blocks join the load-on-open data. */
    ghost function AddBloomFilter(bfw: BloomWriter, blockType: BlockType): WriterState {
      var size := bfw.metaSize + (if bfw.dataSize.Some? then bfw.dataSize.value else 0);
      this.(loadOnOpen := loadOnOpen + [LoadOnOpenBlock(blockType, size)])
    }

    // ---- close ----

    /** One pass of close's meta block loop: the block, then its index entry at the offset it starts at. */
    ghost function WriteMetaBlock(name: Bytes, content: Bytes): (r: WriterState)
      ensures r == this.(block := r.block, out := r.out, totalUncompressedBytes := r.totalUncompressedBytes,
                         metaIndex := r.metaIndex)
    {
      var s := WriteBlock(MetaBlock, |content|);
      s.(metaIndex := metaIndex + [MetaIndexEntry(name, out.pos, s.block.onDiskSizeWithHeader)])
    }

    /** close's meta block loop over the first n names. */
    ghost function WriteMetaBlocks(n: nat): (r: WriterState)
      requires n <= |metaNames| == |metaData|
      ensures r == this.(block := r.block, out := r.out, totalUncompressedBytes := r.totalUncompressedBytes,
                         metaIndex := r.metaIndex)
    {
      if n == 0 then this
      else WriteMetaBlocks(n - 1).WriteMetaBlock(metaNames[n - 1], metaData[n - 1])
    }

    /** close's loop over the first n load-on-open blocks. */
    ghost function WriteLoadOnOpen(n: nat): (r: WriterState)
      requires n <= |loadOnOpen|
      ensures r == this.(block := r.block, out := r.out, totalUncompressedBytes := r.totalUncompressedBytes)
    {
      if n == 0 then this
      else WriteLoadOnOpen(n - 1).WriteBlock(loadOnOpen[n - 1].blockType, loadOnOpen[n - 1].size)
    }

    /** The file-info entries close adds when the context includes MVCC versions. */
    ghost function AddMvccInfo(): WriterState {
      if context.includesMvcc then
        this.(fileInfo := fileInfo[Named(MAX_MEMSTORE_TS_KEY) := LongValue(stats.maxMemstoreTS)]
                                  [Named(KEY_VALUE_VERSION) := IntValue(KEY_VALUE_VER_WITH_MEMSTORE)])
      else this
    }

    /** finishFileInfo: the file-wide statistics under their reserved keys. */
    ghost function FinishFileInfo(): WriterState {
      var withLast := if cursor.lastCell.Some? then fileInfo[LastKey := KeyBytes(cursor.lastCell.value.key)] else fileInfo;
      var withAverages := withLast[AvgKeyLen := IntValue(AverageAsInt(stats.totalKeyLength, stats.entryCount))]
                                  [CreateTimeTs := LongValue(context.fileCreateTime)]
                                  [AvgValueLen := IntValue(AverageAsInt(stats.totalValueLength, stats.entryCount))];
      var withBiggest :=
        if stats.keyOfBiggestCell.Some? then
          withAverages[KeyOfBiggestCell := KeyBytes(stats.keyOfBiggestCell.value)][LenOfBiggestCell := LongValue(stats.lenOfBiggestCell)]
        else withAverages;
      var withTags :=
        if context.includesTags then
          withBiggest[MaxTagsLen := IntValue(stats.maxTagsLength)]
                     [TagsCompressed := BoolValue(context.encoding != NoEncoding && context.compressTags)]
        else withBiggest;
      this.(fileInfo := withTags)
    }

    /** writeFileInfo: the offset the trailer records, then the completed file info as a block. */
    ghost function WriteFileInfo(): (WriterState, nat) {
      var s := FinishFileInfo();
      (s.WriteBlock(FileInfoBlock, codec.payloadSize(FileInfoBlock, |s.fileInfo|)), out.pos)
    }

    /**
     * finishClose: complete the trailer and write it; close and drop the
     * stream when the writer owns it.
     */
    ghost function FinishClose(fileInfoOffset: int, loadOnOpenOffset: int): WriterState
      requires Ready()
    {
      var t := Trailer(
        MAJOR_VERSION, MAX_MINOR_VERSION, fileInfoOffset, loadOnOpenOffset,
        dataBlocks.firstDataBlockOffset, dataBlocks.lastDataBlockOffset, context.cellComparator.value,
        |dataBlocks.entries|, |metaNames|, totalUncompressedBytes + TRAILER_SIZE, stats.entryCount,
        context.compressAlgo.value, context.cryptoContext.value != NoEncryption);
      var written := out.Emit(TrailerBlock, TRAILER_SIZE);
      this.(trailer := Some(t),
            out := if closeOutputStream then written.(open := false) else written,
            outputStream := if closeOutputStream then null else outputStream,
            closed := true)
    }

    /**
     * The data block index writer's writeIndexBlocks, with a single level:
     * its root block goes through the block writer onto the stream, but the
     * file writer does not count its bytes in totalUncompressedBytes.
     */
    ghost function WriteDataIndexRoot(): WriterState {
      var s := WriteBlock(RootIndexBlock, codec.payloadSize(RootIndexBlock, |dataBlocks.entries|));
      s.(totalUncompressedBytes := totalUncompressedBytes)
    }

    /** The root block of the data block index, then that of the meta block index, whose bytes are counted. */
    ghost function WriteRootIndexes(): WriterState {
      var s1 := WriteDataIndexRoot();
      s1.WriteBlock(RootIndexBlock, codec.payloadSize(RootIndexBlock, |s1.metaIndex|))
    }

    /**
     * close from the data block index on: the root index blocks (the first
     * one's offset is the load-on-open offset), the file info block, the
     * load-on-open blocks and the trailer.
     */
    ghost function WriteLoadOnOpenSection(): WriterState
      requires Ready()
    {
      var rootIndexOffset := out.pos;
      var (s3, fileInfoOffset) := WriteRootIndexes().AddMvccInfo().WriteFileInfo();
      s3.WriteLoadOnOpen(|s3.loadOnOpen|).FinishClose(fileInfoOffset, rootIndexOffset)
    }

    /**
     * close: nothing once the stream reference is gone; otherwise finish the
     * last data block, flush the inline writers, write the meta blocks and
     * then the load-on-open section and the trailer.
     */
    ghost function Close(): WriterState
      requires Ready() && CanFinishBlock() && |metaNames| == |metaData|
    {
      if outputStream == null then this
      else
        var s := FinishBlock().WriteInlineBlocks(true);
        s.WriteMetaBlocks(|s.metaNames|).WriteLoadOnOpenSection()
    }
  }
}
