# HFile writer, memstore segment scanner and HFile context

This project models three pieces of HBase's storage layer and proves what
they promise.

- **The HFile writer (`HFileWriterImpl`).** Cells arrive in key order. The
  writer checks each key against the last one. It packs the cells into data
  blocks and writes a block out when it reaches a size boundary. It indexes
  each data block under a short separator key, computed by `getMidpoint` and
  `getMinimumMidpointArray`. It keeps running statistics over the cells. At
  close it writes, in order:
  - the last data block and the inline blocks;
  - the meta blocks;
  - the load-on-open section: the root indexes, the file info and the Bloom
    filter metadata;
  - the fixed trailer.
- **The memstore segment scanner (`SegmentScanner`).** This is a cursor over
  the sorted cells of one memstore segment. It only returns cells whose
  sequence id is at most its read point. It supports forward seeks and
  reseeks, the backward moves of a reversed scan (`backwardSeek`,
  `seekToPreviousRow`, `seekToLastRow`) and a close that releases the
  segment once.
- **The file context (`HFileContext`).** This is the per-file
  configuration: its defaults, both constructors with the choice of the
  default comparator, its setters, `isCompressedOrEncrypted` and
  `heapSize`.

The model follows the form of the source.

- **The writer** is the class `FileWriter.HFileWriter`. It has the writer's
  fields, a block writer (`Blocks.BlockWriter`) and an output stream
  (`Blocks.Sink`).
  - `State()` projects all of this onto one value of type
    `WriterModel.WriterState`.
  - Every method is proved to move that value exactly as the matching
    function of `WriterState` says.
  - Modules `WriterProps`, `WriterFacts` and `WriterSpec` prove what those
    functions guarantee: the writer's invariant, the statistics, the order
    of the data block index, the meta block insertion point, and what close
    leaves on the stream.
- **The scanner** is the class `Scanner.SegmentScanner`. It sits over a
  `Scanner.Segment`, which holds the cells and the open-scanner count.
  - The segment's iterator is an index `pos` into the segment's sorted cells.
  - `tailSet` and `headSet` become the position `SegmentOrder.LowerBound`.
  - Module `SegmentOrder` states, as functions and predicates over the
    cells, where `updateCurrent` stops and what each seek must find. The
    scanner's methods are proved against them.
- **The context** is a value (`Context.HFileContext`). Each setter is a
  function that returns the updated value.

Unsigned lexicographic byte order (`Bytes.Compare`) and the cell order
(`Cells.CompareKeys`, `Cells.CompareCells`) are modelled here and proved to
be total orders. In the cell order, row, family and qualifier ascend;
timestamp and type descend; the sequence id then descends. These orders
come from classes that are not part of this model (`Bytes`,
`CellComparatorImpl`, `PrivateCellUtil`).

Two behaviours of the code are easy to misread; this model follows the
code as written.

- **A left range that is a proper prefix of the right one.**
  `getMinimumMidpointArray` copies `|left| + 1` bytes of the right range and
  then sets the last one to `0x00`. The result is `left` followed by one
  zero byte, whatever byte `right` has at that position
  (`Midpoint.MidpointShape`, `Midpoint.ExamplePrefix`).
- **A second `close()`.** It does nothing only when the writer owns its
  stream: `finishClose` clears `outputStream` only in that case
  (`WriterFacts.CloseAgainOwned`). In this model, a writer given a stream it
  does not own still holds that stream after close, so a second close runs
  the close sequence again and writes the meta blocks, the load-on-open
  section and a trailer once more (`WriterFacts.CloseAgainBorrowed`). What
  the block writer's release at the end of the first close and the index
  writers do on such a second pass is outside the model.

## Model

| member | source | states |
|---|---|---|
| Midpoint.GetMinimumMidpointArray | hbase-server/src/main/java/org/apache/hadoop/hbase/io/hfile/HFileWriterImpl.java:448-485 | the byte loop yields the result MinimumMidpoint defines: null exactly when the ranges are equal, the exception exactly when left sorts after right, and otherwise a result strictly after left and no later than right |
| Midpoint.MidpointSameIff | hbase-server/src/main/java/org/apache/hadoop/hbase/io/hfile/HFileWriterImpl.java:463-478 | no separator (null) exactly when the two ranges are byte-identical |
| Midpoint.MidpointLeftSortsAfterIff | hbase-server/src/main/java/org/apache/hadoop/hbase/io/hfile/HFileWriterImpl.java:452-468 | IllegalArgumentException exactly when left sorts after right unsigned: a larger byte at the first difference, or right a proper prefix of left |
| Midpoint.MidpointBetween | hbase-server/src/main/java/org/apache/hadoop/hbase/io/hfile/HFileWriterImpl.java:463-484 | a returned separator sorts strictly after left and no later than right |
| Midpoint.MidpointShape | hbase-server/src/main/java/org/apache/hadoop/hbase/io/hfile/HFileWriterImpl.java:469-484 | the two shapes: left followed by 0x00 when left is a proper prefix of right; otherwise left cut after the first difference, with that byte raised by one and never wrapping |
| Midpoint.MidpointIsShortest | hbase-server/src/main/java/org/apache/hadoop/hbase/io/hfile/HFileWriterImpl.java:442-447 | no byte string strictly after left and no later than right is shorter than the separator |
| Midpoint.ZeroExtensionBetween | hbase-server/src/main/java/org/apache/hadoop/hbase/io/hfile/HFileWriterImpl.java:469-474 | left + [0x00] lies strictly after left and no later than any longer string that starts with left |
| Midpoint.BumpedByteBetween | hbase-server/src/main/java/org/apache/hadoop/hbase/io/hfile/HFileWriterImpl.java:480-484 | raising left's byte at the first difference gives a string after left and no later than right |
| Midpoint.ShortStringIsNotBetween | hbase-server/src/main/java/org/apache/hadoop/hbase/io/hfile/HFileWriterImpl.java:442-447 | no string that is no longer than a shared prefix lies between left and right |
| Midpoint.IdenticalRangesHaveNoMidpoint | hbase-server/src/main/java/org/apache/hadoop/hbase/io/hfile/HFileWriterImpl.java:475-478 | identical ranges give null |
| Midpoint.ExampleDifferentFirstByte | hbase-server/src/main/java/org/apache/hadoop/hbase/io/hfile/HFileWriterImpl.java:480-484 | "apple" and "banana" are separated by "b" |
| Midpoint.ExamplePrefix | hbase-server/src/main/java/org/apache/hadoop/hbase/io/hfile/HFileWriterImpl.java:469-474 | "prefix" and "prefixAndMore" are separated by "prefix" followed by 0x00 |
| Separator.GetMidpointShortCircuits | hbase-server/src/main/java/org/apache/hadoop/hbase/io/hfile/HFileWriterImpl.java:381-394 | a null right throws IllegalArgumentException; a null left or a meta comparator returns right unchanged |
| Separator.GetMidpointComponentOrder | hbase-server/src/main/java/org/apache/hadoop/hbase/io/hfile/HFileWriterImpl.java:395-440 | rows are tried first, then families, then qualifiers; the first one that differs gives a first-on-row, first-on-row-family or first-on-row-column key, and right is returned when all three are equal |
| Separator.GetMidpointSeparates | hbase-server/src/main/java/org/apache/hadoop/hbase/io/hfile/HFileWriterImpl.java:381-440 | for cells in key order getMidpoint never fails, sorts no later than right, and sorts strictly after left when left is before right, under either comparator |
| Separator.MidpointNoLongerThanRight | hbase-server/src/main/java/org/apache/hadoop/hbase/io/hfile/HFileWriterImpl.java:448-485 | the shortened component is no longer than right's and at most one byte longer than left's |
| Separator.FirstOnRowBefore | hbase-server/src/main/java/org/apache/hadoop/hbase/io/hfile/HFileWriterImpl.java:407-410 | a first-on-row key built from a row no later than right's row sorts no later than right |
| WriterModel.CheckKey | hbase-server/src/main/java/org/apache/hadoop/hbase/io/hfile/HFileWriterImpl.java:243-260 | each outcome holds exactly under its condition: a null cell is an error, a key below the last cell is out of order, an equal key is a duplicate, and any other cell is accepted |
| WriterModel.MidpointOf | hbase-server/src/main/java/org/apache/hadoop/hbase/io/hfile/HFileWriterImpl.java:363-366 | finishBlock's call to getMidpoint succeeds when the previous block's last cell sorts no later than the first cell of the block |
| FileWriter.HFileWriter.constructor | hbase-server/src/main/java/org/apache/hadoop/hbase/io/hfile/HFileWriterImpl.java:174-202 | a valid writer: nothing appended, both data block offsets UNSET, the block writer idle, the stream owned exactly when a path is given |
| FileWriter.HFileWriter.Append | hbase-server/src/main/java/org/apache/hadoop/hbase/io/hfile/HFileWriterImpl.java:744-778 | the writer becomes WriterState.Append of its old state and stays valid and open; the call fails exactly when checkKey rejects the cell, with checkKey's error |
| FileWriter.HFileWriter.AddCell | hbase-server/src/main/java/org/apache/hadoop/hbase/io/hfile/HFileWriterImpl.java:755-777 | the cell goes to the block writer, the statistics and the cursor, as WriterState.AddCell says |
| FileWriter.HFileWriter.NewBlock | hbase-server/src/main/java/org/apache/hadoop/hbase/io/hfile/HFileWriterImpl.java:579-586 | a DATA block is started, and the last cell becomes the previous block's last cell |
| FileWriter.HFileWriter.FinishBlock | hbase-server/src/main/java/org/apache/hadoop/hbase/io/hfile/HFileWriterImpl.java:351-372 | the new state is WriterState.FinishBlock of the old one: nothing happens without a non-empty block; otherwise the block is written and indexed |
| FileWriter.HFileWriter.WriteBlock | hbase-server/src/main/java/org/apache/hadoop/hbase/io/hfile/HFileWriterImpl.java:633-637 | startWriting, the payload, writeHeaderAndData, and the uncompressed byte count, done as one whole block |
| FileWriter.HFileWriter.DrainInlineWriter | hbase-server/src/main/java/org/apache/hadoop/hbase/io/hfile/HFileWriterImpl.java:536-548 | the inner loop of writeInlineBlocks for one writer, as WriterState.DrainInline says |
| FileWriter.HFileWriter.WriteInlineBlocks | hbase-server/src/main/java/org/apache/hadoop/hbase/io/hfile/HFileWriterImpl.java:534-550 | each inline writer in turn writes blocks while it wants to, as WriterState.WriteInlineBlocks says |
| FileWriter.HFileWriter.CheckBlockBoundary | hbase-server/src/main/java/org/apache/hadoop/hbase/io/hfile/HFileWriterImpl.java:332-348 | at a boundary the block is finished, inline blocks are written and a new block starts; otherwise nothing changes |
| FileWriter.HFileWriter.AppendMetaBlock | hbase-server/src/main/java/org/apache/hadoop/hbase/io/hfile/HFileWriterImpl.java:596-608 | the name and the content are inserted at the insertion index, and the writer stays valid |
| FileWriter.HFileWriter.AppendFileInfo | hbase-server/src/main/java/org/apache/hadoop/hbase/io/hfile/HFileWriterImpl.java:212-214 | a key with the reserved prefix "hfile." is refused and changes nothing; any other key is set in the file info |
| FileWriter.HFileWriter.AddInlineBlockWriter | hbase-server/src/main/java/org/apache/hadoop/hbase/io/hfile/HFileWriterImpl.java:693-695 | the inline writer joins the end of the list |
| FileWriter.HFileWriter.AddBloomFilter | hbase-server/src/main/java/org/apache/hadoop/hbase/io/hfile/HFileWriterImpl.java:707-732 | a filter without keys is ignored; a block type other than the two Bloom metadata types is refused; otherwise the filter joins the load-on-open data |
| FileWriter.HFileWriter.AddGeneralBloomFilter | hbase-server/src/main/java/org/apache/hadoop/hbase/io/hfile/HFileWriterImpl.java:698-700 | addBloomFilter with the general Bloom metadata type |
| FileWriter.HFileWriter.AddDeleteFamilyBloomFilter | hbase-server/src/main/java/org/apache/hadoop/hbase/io/hfile/HFileWriterImpl.java:703-705 | addBloomFilter with the delete-family Bloom metadata type |
| FileWriter.HFileWriter.Close | hbase-server/src/main/java/org/apache/hadoop/hbase/io/hfile/HFileWriterImpl.java:611-690 | the new state is WriterState.Close of the old one, and the writer is valid and closed; what that state records (trailer counts, byte total, file info) is stated by WriterFacts.CloseWritesTrailer and WriterFacts.CloseCountsBytes |
| FileWriter.HFileWriter.WriteMetaBlocks | hbase-server/src/main/java/org/apache/hadoop/hbase/io/hfile/HFileWriterImpl.java:628-643 | close's meta block loop over every name |
| FileWriter.HFileWriter.WriteMetaBlock | hbase-server/src/main/java/org/apache/hadoop/hbase/io/hfile/HFileWriterImpl.java:630-641 | one META block, then its meta index entry at the offset where the block starts |
| FileWriter.HFileWriter.WriteLoadOnOpenSection | hbase-server/src/main/java/org/apache/hadoop/hbase/io/hfile/HFileWriterImpl.java:645-687 | the root indexes, the file info, the load-on-open blocks and the trailer, which records the root entry count of the data index; the byte total leaves out the data index root (WriterFacts.SectionCountsBytes) |
| FileWriter.HFileWriter.WriteRootIndexes | hbase-server/src/main/java/org/apache/hadoop/hbase/io/hfile/HFileWriterImpl.java:654-661 | the root block of the data block index, then the root block of the meta block index; only the second is added to the byte total |
| FileWriter.HFileWriter.WriteDataIndexRoot | hbase-server/src/main/java/org/apache/hadoop/hbase/io/hfile/HFileWriterImpl.java:654-655 | the data index root block is written to the stream and the byte total is unchanged |
| FileWriter.HFileWriter.AddMvccInfo | hbase-server/src/main/java/org/apache/hadoop/hbase/io/hfile/HFileWriterImpl.java:663-666 | with MVCC included, MAX_MEMSTORE_TS_KEY and KEY_VALUE_VERSION are added to the file info |
| FileWriter.HFileWriter.WriteFileInfo | hbase-server/src/main/java/org/apache/hadoop/hbase/io/hfile/HFileWriterImpl.java:223-230 | the file info offset is the stream position, then finishFileInfo runs and the file info block is written |
| FileWriter.HFileWriter.FinishFileInfo | hbase-server/src/main/java/org/apache/hadoop/hbase/io/hfile/HFileWriterImpl.java:799-834 | the file-wide statistics are stored under their reserved keys |
| FileWriter.HFileWriter.WriteLoadOnOpen | hbase-server/src/main/java/org/apache/hadoop/hbase/io/hfile/HFileWriterImpl.java:674-677 | each additional load-on-open block is written, in order |
| FileWriter.HFileWriter.FinishClose | hbase-server/src/main/java/org/apache/hadoop/hbase/io/hfile/HFileWriterImpl.java:844-869 | the trailer is completed and written; the stream is closed and dropped only when the writer owns it |
| WriterProps.InitialStateValid | hbase-server/src/main/java/org/apache/hadoop/hbase/io/hfile/HFileWriterImpl.java:174-202 | a freshly built writer satisfies the writer's invariant |
| WriterProps.AppendKeepsValid | hbase-server/src/main/java/org/apache/hadoop/hbase/io/hfile/HFileWriterImpl.java:744-778 | append keeps an open writer valid and open, with the same stream |
| WriterProps.AppendCheckedKeepsValid | hbase-server/src/main/java/org/apache/hadoop/hbase/io/hfile/HFileWriterImpl.java:747-777 | an accepted cell keeps the writer valid and open |
| WriterProps.AddCellKeepsValid | hbase-server/src/main/java/org/apache/hadoop/hbase/io/hfile/HFileWriterImpl.java:757-777 | adding a cell in key order (strictly after the last cell when it starts a block) keeps the writer valid |
| WriterProps.AddCellKeepsAggregates | hbase-server/src/main/java/org/apache/hadoop/hbase/io/hfile/HFileWriterImpl.java:757-777 | the statistics stay those of the cells appended, and those cells stay in key order |
| WriterProps.AddCellKeepsIndexOrder | hbase-server/src/main/java/org/apache/hadoop/hbase/io/hfile/HFileWriterImpl.java:757-777 | every block already written still sorts before the new last cell |
| WriterProps.AddCellKeepsBlockState | hbase-server/src/main/java/org/apache/hadoop/hbase/io/hfile/HFileWriterImpl.java:763-768 | firstCellInBlock is set only when it was null, and the block's first cell lies between the previous block and the last cell |
| WriterProps.OpenBlockSettles | hbase-server/src/main/java/org/apache/hadoop/hbase/io/hfile/HFileWriterImpl.java:746-753 | after the boundary check and newBlock, a block is open; a block with no cell yet is one the new key strictly follows |
| WriterProps.CheckBlockBoundaryKeeps | hbase-server/src/main/java/org/apache/hadoop/hbase/io/hfile/HFileWriterImpl.java:332-348 | the boundary check leaves a settled writer settled, with the same last cell |
| WriterProps.FinishBlockDone | hbase-server/src/main/java/org/apache/hadoop/hbase/io/hfile/HFileWriterImpl.java:351-372 | finishBlock leaves no data in the block, with the same cells and cursor |
| WriterProps.SealKeepsIndexOnDisk | hbase-server/src/main/java/org/apache/hadoop/hbase/io/hfile/HFileWriterImpl.java:357-366 | the new index entry names the DATA block just written, at its offset and with its size |
| WriterProps.SealKeepsIndexOrder | hbase-server/src/main/java/org/apache/hadoop/hbase/io/hfile/HFileWriterImpl.java:363-366 | the new index entry separates the block just written from the block before it |
| WriterProps.SealKeepsConsistent | hbase-server/src/main/java/org/apache/hadoop/hbase/io/hfile/HFileWriterImpl.java:351-372 | sealing a block leaves a consistent writer whose block holds no data |
| WriterProps.NewBlockSettles | hbase-server/src/main/java/org/apache/hadoop/hbase/io/hfile/HFileWriterImpl.java:579-586 | newBlock starts an empty DATA block and keeps the last cell |
| WriterProps.WriteInlineBlocksWrites | hbase-server/src/main/java/org/apache/hadoop/hbase/io/hfile/HFileWriterImpl.java:534-550 | writeInlineBlocks only adds blocks to the end of the stream and leaves cells, statistics and index alone |
| WriterProps.WriteMetaBlocksWrites | hbase-server/src/main/java/org/apache/hadoop/hbase/io/hfile/HFileWriterImpl.java:628-643 | the meta block loop only adds blocks and meta index entries |
| WriterProps.WriteLoadOnOpenWrites | hbase-server/src/main/java/org/apache/hadoop/hbase/io/hfile/HFileWriterImpl.java:674-677 | the load-on-open loop only adds blocks |
| WriterProps.AppendMetaBlockKeepsValid | hbase-server/src/main/java/org/apache/hadoop/hbase/io/hfile/HFileWriterImpl.java:596-608 | appendMetaBlock keeps the writer valid |
| WriterProps.AppendFileInfoKeepsInfo | hbase-server/src/main/java/org/apache/hadoop/hbase/io/hfile/HFileWriterImpl.java:212-214 | a key outside the reserved prefix keeps the file info free of reserved keys |
| WriterProps.AddInlineBlockWriterKeepsValid | hbase-server/src/main/java/org/apache/hadoop/hbase/io/hfile/HFileWriterImpl.java:693-695 | addInlineBlockWriter keeps the writer valid |
| WriterProps.AddBloomFilterKeepsValid | hbase-server/src/main/java/org/apache/hadoop/hbase/io/hfile/HFileWriterImpl.java:707-732 | addBloomFilter keeps the writer valid |
| WriterProps.FileInfoOnly | hbase-server/src/main/java/org/apache/hadoop/hbase/io/hfile/HFileWriterImpl.java:799-834 | finishFileInfo changes the file info and nothing else |
| WriterProps.FinishCloseKeeps | hbase-server/src/main/java/org/apache/hadoop/hbase/io/hfile/HFileWriterImpl.java:844-869 | finishClose closes the writer and drops the stream exactly when the writer owns it |
| WriterProps.CloseKeepsValid | hbase-server/src/main/java/org/apache/hadoop/hbase/io/hfile/HFileWriterImpl.java:611-690 | close leaves a valid, closed writer that holds either the same stream or none |
| WriterFacts.AppendEffects | hbase-server/src/main/java/org/apache/hadoop/hbase/io/hfile/HFileWriterImpl.java:744-778 | a rejected cell changes nothing; an accepted cell adds one entry and its key and value lengths, raises the biggest-cell length, the maximum memstore timestamp and the maximum tags length to its own when larger, and becomes the last cell |
| WriterFacts.AppendSealsIff | hbase-server/src/main/java/org/apache/hadoop/hbase/io/hfile/HFileWriterImpl.java:746-753 | append writes a data block out exactly when a cell came before, the key is new and the boundary test passes; earlier blocks are kept |
| WriterFacts.OpenBlockSeals | hbase-server/src/main/java/org/apache/hadoop/hbase/io/hfile/HFileWriterImpl.java:332-361 | a block is sealed exactly when the key is new, the boundary is reached and the block holds data |
| WriterFacts.OpenBlockKeepsCells | hbase-server/src/main/java/org/apache/hadoop/hbase/io/hfile/HFileWriterImpl.java:746-753 | opening a block leaves the cells, the statistics and the last cell alone |
| WriterFacts.FinishBlockOffsets | hbase-server/src/main/java/org/apache/hadoop/hbase/io/hfile/HFileWriterImpl.java:351-366 | no change without a non-empty block; otherwise the block goes at the stream position, which becomes the last data block offset; the first offset never changes once set |
| WriterFacts.IndexKeysIncrease | hbase-server/src/main/java/org/apache/hadoop/hbase/io/hfile/HFileWriterImpl.java:363-366 | the data block index keys strictly increase |
| WriterFacts.IndexedBlocksOnStream | hbase-server/src/main/java/org/apache/hadoop/hbase/io/hfile/HFileWriterImpl.java:357-366 | every index entry names a DATA block on the stream with its offset and on-disk size, and the offsets strictly increase |
| WriterFacts.AppendMetaBlockInserts | hbase-server/src/main/java/org/apache/hadoop/hbase/io/hfile/HFileWriterImpl.java:596-608 | the name goes after every name that sorts no later and before every name that sorts after it; the content goes at the same index; later entries shift by one; the names stay sorted |
| WriterFacts.WriteInlineBlocksDrains | hbase-server/src/main/java/org/apache/hadoop/hbase/io/hfile/HFileWriterImpl.java:534-550 | the same inline writers remain, in order and with the same types, and none of them has a block left to write |
| WriterFacts.DrainInlineDrains | hbase-server/src/main/java/org/apache/hadoop/hbase/io/hfile/HFileWriterImpl.java:536-548 | the inner loop stops only when shouldWriteBlock is false |
| WriterFacts.MetaBlocksIndexed | hbase-server/src/main/java/org/apache/hadoop/hbase/io/hfile/HFileWriterImpl.java:628-643 | the meta index grows by one entry per name, in the order of the names, each naming a META block on the stream |
| WriterFacts.SectionWritesTrailer | hbase-server/src/main/java/org/apache/hadoop/hbase/io/hfile/HFileWriterImpl.java:654-687 | the trailer comes last and records the entry count, the number of meta blocks, the number of data index entries, both data block offsets, and the root index offset as the load-on-open offset; the file info is finishFileInfo's, after the MVCC keys |
| WriterFacts.SectionCountsBytes | hbase-server/src/main/java/org/apache/hadoop/hbase/io/hfile/HFileWriterImpl.java:654-676 | the trailer's byte total is the total before the section plus the meta root block, the file info block, each load-on-open block and the trailer size, and not the data index root |
| WriterFacts.MetaBlocksCount | hbase-server/src/main/java/org/apache/hadoop/hbase/io/hfile/HFileWriterImpl.java:627-642 | the meta block loop adds each meta block's header and payload to the byte total and one meta index entry per block |
| WriterFacts.LoadOnOpenCounts | hbase-server/src/main/java/org/apache/hadoop/hbase/io/hfile/HFileWriterImpl.java:674-677 | the load-on-open loop adds each block's header and payload to the byte total |
| WriterFacts.CloseCountsBytes | hbase-server/src/main/java/org/apache/hadoop/hbase/io/hfile/HFileWriterImpl.java:627-676 | from the meta blocks on, close's trailer byte total is the running total plus every meta block, the meta root, the file info block, the load-on-open blocks and the trailer size |
| WriterFacts.FinishFileInfoRecords | hbase-server/src/main/java/org/apache/hadoop/hbase/io/hfile/HFileWriterImpl.java:799-834 | the finished file info holds the last key exactly when a cell was appended, the two averages, the creation time, the biggest cell's key and length exactly when there is one, the MVCC keys when MVCC is included, and the tags entries exactly when tags are included |
| WriterFacts.CloseDataPart | hbase-server/src/main/java/org/apache/hadoop/hbase/io/hfile/HFileWriterImpl.java:622-623 | the last data block ends with the last cell appended; the inline blocks are flushed; cells, statistics and meta names are untouched |
| WriterFacts.CloseWritesTrailer | hbase-server/src/main/java/org/apache/hadoop/hbase/io/hfile/HFileWriterImpl.java:611-690 | close on an open writer ends the stream with a trailer that counts every cell, every meta block and every data block in the root index, indexes each meta block in order on the stream, and leaves file info whose last key and statistics are those of the cells appended |
| WriterFacts.CloseAgainOwned | hbase-server/src/main/java/org/apache/hadoop/hbase/io/hfile/HFileWriterImpl.java:611-614 | a second close on a writer that owned its stream does nothing, because finishClose (lines 865-868) dropped the stream reference |
| WriterFacts.CloseAgainBorrowed | hbase-server/src/main/java/org/apache/hadoop/hbase/io/hfile/HFileWriterImpl.java:865-868 | in this model, a second close on a writer given a stream it does not own runs the close sequence again and writes more blocks to that stream |
| WriterSpec.AddCountsCell | hbase-server/src/main/java/org/apache/hadoop/hbase/io/hfile/HFileWriterImpl.java:757-777 | the per-cell update of the statistics gives the statistics of all the cells appended |
| WriterSpec.AppendStats | hbase-server/src/main/java/org/apache/hadoop/hbase/io/hfile/HFileWriterImpl.java:757-777 | how each statistic moves with one more cell: the sums grow by its sizes, and the maxima become the larger of the old value and its own |
| WriterSpec.BiggestIsFirstMaximum | hbase-server/src/main/java/org/apache/hadoop/hbase/io/hfile/HFileWriterImpl.java:759-762 | lenOfBiggestCell bounds every cell's size and is reached; keyOfBiggestCell is the key of the first cell that reaches it |
| WriterSpec.MaxSequenceIdIsMaximum | hbase-server/src/main/java/org/apache/hadoop/hbase/io/hfile/HFileWriterImpl.java:773-773 | maxMemstoreTS bounds every sequence id and is 0 or one of them |
| WriterSpec.MaxTagsLengthIsMaximum | hbase-server/src/main/java/org/apache/hadoop/hbase/io/hfile/HFileWriterImpl.java:774-777 | maxTagsLength bounds every tags length and is 0 or one of them |
| WriterSpec.AverageWhenItFits | hbase-server/src/main/java/org/apache/hadoop/hbase/io/hfile/HFileWriterImpl.java:807-815 | the averages finishFileInfo stores are the truncated quotients whenever they fit in an int |
| WriterSpec.WriterKeysNotReserved | hbase-server/src/main/java/org/apache/hadoop/hbase/io/hfile/HFileWriterImpl.java:663-666 | the two keys close adds lie outside the reserved prefix, so neither append is refused |
| WriterSpec.InsertionIsUpperBound | hbase-server/src/main/java/org/apache/hadoop/hbase/io/hfile/HFileWriterImpl.java:597-607 | in a sorted list, the names before the insertion point are exactly those that sort no later than the new name |
| WriterSpec.InsertKeepsSorted | hbase-server/src/main/java/org/apache/hadoop/hbase/io/hfile/HFileWriterImpl.java:596-608 | inserting at the insertion point keeps the names sorted |
| WriterSpec.SealKeepsSeparation | hbase-server/src/main/java/org/apache/hadoop/hbase/io/hfile/HFileWriterImpl.java:363-366 | for a block that follows the previous block, getMidpoint succeeds and its entry keeps every index key between the blocks around it |
| WriterSpec.SeparatorsIncrease | hbase-server/src/main/java/org/apache/hadoop/hbase/io/hfile/HFileWriterImpl.java:363-366 | separator keys strictly increase along the index |
| Blocks.EmitKeepsValid | hbase-server/src/main/java/org/apache/hadoop/hbase/io/hfile/HFileWriterImpl.java:357-362 | writing a block puts it at the end of the stream, at the old position, and moves the position past it |
| Blocks.OffsetsIncrease | hbase-server/src/main/java/org/apache/hadoop/hbase/io/hfile/HFileWriterImpl.java:357-362 | block offsets on the stream strictly increase |
| Blocks.NoPendingIffDrained | hbase-server/src/main/java/org/apache/hadoop/hbase/io/hfile/HFileWriterImpl.java:534-550 | no inline writer has a block pending exactly when none of them should write a block |
| Context.Copy | hbase-common/src/main/java/org/apache/hadoop/hbase/io/hfile/HFileContext.java:85-103 | the copy constructor reproduces all 17 fields |
| Context.DefaultIsPlain | hbase-common/src/main/java/org/apache/hadoop/hbase/io/hfile/HFileContext.java:45-80 | the defaults: checksums on, MVCC included, tags off, 16 KiB per checksum, both encodings NONE; the context is neither compressed nor encrypted, and its heap size is exactly the fixed overhead |
| Context.CreateDefaults | hbase-common/src/main/java/org/apache/hadoop/hbase/io/hfile/HFileContext.java:105-137 | a null encoding or index encoding stays NONE; the comparator is the one given, else the one derived from the table name, else the inner-store comparator |
| Context.CreateRebuildsContext | hbase-common/src/main/java/org/apache/hadoop/hbase/io/hfile/HFileContext.java:105-137 | passing a context's own fields back through the full constructor rebuilds it |
| Context.SetIncludesMvcc | hbase-common/src/main/java/org/apache/hadoop/hbase/io/hfile/HFileContext.java:176-178 | the setter changes its own field and no other |
| Context.SetIncludesTags | hbase-common/src/main/java/org/apache/hadoop/hbase/io/hfile/HFileContext.java:184-186 | the setter changes its own field and no other |
| Context.SetFileCreateTime | hbase-common/src/main/java/org/apache/hadoop/hbase/io/hfile/HFileContext.java:188-190 | the setter changes its own field and no other |
| Context.SetCompressTags | hbase-common/src/main/java/org/apache/hadoop/hbase/io/hfile/HFileContext.java:196-198 | the setter changes its own field and no other |
| Context.SetEncryptionContext | hbase-common/src/main/java/org/apache/hadoop/hbase/io/hfile/HFileContext.java:228-230 | the setter changes its own field and no other |
| Context.EncryptionMakesEncrypted | hbase-common/src/main/java/org/apache/hadoop/hbase/io/hfile/HFileContext.java:140-148 | a real encryption context makes isCompressedOrEncrypted true |
| Context.NoEncryptionNoCompressionIsPlain | hbase-common/src/main/java/org/apache/hadoop/hbase/io/hfile/HFileContext.java:140-148 | with no compression and no encryption (null or NONE), isCompressedOrEncrypted is false |
| Context.SettersKeepDerivedValues | hbase-common/src/main/java/org/apache/hadoop/hbase/io/hfile/HFileContext.java:176-198 | the setters other than the encryption one keep isCompressedOrEncrypted and heapSize |
| Context.HeapSizeBounds | hbase-common/src/main/java/org/apache/hadoop/hbase/io/hfile/HFileContext.java:254-269 | heapSize is at least FIXED_OVERHEAD, grows with each name, family or table that is set, and equals FIXED_OVERHEAD when none of the four optional fields is set |
| Scanner.SegmentScanner.constructor | hbase-server/src/main/java/org/apache/hadoop/hbase/regionserver/SegmentScanner.java:64-78 | current is the first visible cell; the scanner is closed exactly when no cell is visible; the segment's scanner count goes up by one only for a scanner that stays open |
| Scanner.SegmentScanner.Peek | hbase-server/src/main/java/org/apache/hadoop/hbase/regionserver/SegmentScanner.java:85-94 | null once closed; never throws for a scanner that keeps its invariant; a returned cell is visible at the read point |
| Scanner.SegmentScanner.UpdateCurrent | hbase-server/src/main/java/org/apache/hadoop/hbase/regionserver/SegmentScanner.java:341-374 | the iterator stops where ScanStop says; current is the visible cell found there or null (also when a row beyond the stop row is reached); last is the last cell iterated |
| Scanner.Iterate | hbase-server/src/main/java/org/apache/hadoop/hbase/regionserver/SegmentScanner.java:346-364 | the while loop stops just past the first visible cell or the first cell beyond the stop row, or at the end, and yields the last cell iterated |
| Scanner.SegmentScanner.Next | hbase-server/src/main/java/org/apache/hadoop/hbase/regionserver/SegmentScanner.java:101-108 | null and no change once closed; otherwise the old current, and the scanner moves to the next visible cell, which sorts after it |
| Scanner.SegmentScanner.Seek | hbase-server/src/main/java/org/apache/hadoop/hbase/regionserver/SegmentScanner.java:116-134 | false and no change once closed; a null cell closes the scanner; otherwise current is the first visible cell at or after the cell, and the result says whether there is one |
| Scanner.SegmentScanner.Reseek | hbase-server/src/main/java/org/apache/hadoop/hbase/regionserver/SegmentScanner.java:144-158 | false and no change once closed; otherwise the scan restarts from the later of the cell and the last cell iterated, never moving back, and stops at the first visible cell from there |
| Scanner.Highest | hbase-server/src/main/java/org/apache/hadoop/hbase/regionserver/SegmentScanner.java:380-389 | null exactly when both are null; otherwise one of the arguments that sorts no earlier than either |
| Scanner.SegmentScanner.BackwardSeek | hbase-server/src/main/java/org/apache/hadoop/hbase/regionserver/SegmentScanner.java:169-178 | false once closed; stays on the first visible cell at or after the key when it is in the key's row; otherwise acts as seekToPreviousRow |
| Scanner.SegmentScanner.SeekToPreviousRow | hbase-server/src/main/java/org/apache/hadoop/hbase/regionserver/SegmentScanner.java:187-217 | false once closed; otherwise current is the first visible cell of the last row before the cell's row that has one, or null with false when there is none |
| Scanner.SegmentScanner.PreviousRowRound | hbase-server/src/main/java/org/apache/hadoop/hbase/regionserver/SegmentScanner.java:194-214 | one round of the do-while loop: it fails when no cell sorts before the row; it finds the previous row's first visible cell; or it continues from the previous row, which is strictly earlier |
| Scanner.SegmentScanner.SeekWithinRow | hbase-server/src/main/java/org/apache/hadoop/hbase/regionserver/SegmentScanner.java:202-205 | a seek with the stop-row flag set, which stops at the first visible cell of the row or null, and the flag cleared afterwards |
| Scanner.SegmentScanner.SeekToLastRow | hbase-server/src/main/java/org/apache/hadoop/hbase/regionserver/SegmentScanner.java:224-240 | false once closed; true exactly when some cell is visible, and then current is the first visible cell of the last row that has one |
| Scanner.SegmentScanner.Close | hbase-server/src/main/java/org/apache/hadoop/hbase/regionserver/SegmentScanner.java:246-252 | the scanner is closed; the segment's scanner count drops by one only on the first call; nothing else changes |
| SegmentOrder.SeekFindsFirstVisible | hbase-server/src/main/java/org/apache/hadoop/hbase/regionserver/SegmentScanner.java:116-134 | scanning from the tailSet position with no stop row finds the first visible cell at or after the key, or null when there is none |
| SegmentOrder.LowerBound | hbase-server/src/main/java/org/apache/hadoop/hbase/regionserver/SegmentScanner.java:132-134 | the tailSet and headSet split: the cells before the index sort before the key, and the rest do not |
| SegmentOrder.ScanStop | hbase-server/src/main/java/org/apache/hadoop/hbase/regionserver/SegmentScanner.java:346-364 | every cell skipped is invisible and not beyond the stop row, and the stopping cell is visible or beyond the stop row |
| SegmentOrder.PreviousRowStep | hbase-server/src/main/java/org/apache/hadoop/hbase/regionserver/SegmentScanner.java:194-214 | the previous row sorts strictly before the current one and has a smaller headSet; the seek within it finds its first visible cell, or shows that row has none |
| SegmentOrder.PreviousRowNone | hbase-server/src/main/java/org/apache/hadoop/hbase/regionserver/SegmentScanner.java:195-200 | when no cell sorts before the first-on-row key of a row R, and no visible cell has a row from R up to the cell\'s row, then no visible cell has a row before the cell\'s row |
| SegmentOrder.BackwardSeekFacts | hbase-server/src/main/java/org/apache/hadoop/hbase/regionserver/SegmentScanner.java:173-177 | when the cell found is not in the key's row, no visible cell lies in that row at or after the key |
| SegmentOrder.LastRowFromSeek | hbase-server/src/main/java/org/apache/hadoop/hbase/regionserver/SegmentScanner.java:228-236 | a cell found by seeking to the first cell of the last row is the first visible cell of the last row that has one |
| SegmentOrder.LastRowFromPrevious | hbase-server/src/main/java/org/apache/hadoop/hbase/regionserver/SegmentScanner.java:235-239 | when the last row shows nothing, the previous-row search from it finds the last row that has a visible cell |
| Bytes.CompareAntisymmetric | hbase-server/src/main/java/org/apache/hadoop/hbase/io/hfile/HFileWriterImpl.java:597-607 | unsigned byte comparison is antisymmetric |
| Bytes.CompareTransitive | hbase-server/src/main/java/org/apache/hadoop/hbase/io/hfile/HFileWriterImpl.java:597-607 | unsigned byte comparison is transitive |
| Cells.CompareCellsTransitive | hbase-server/src/main/java/org/apache/hadoop/hbase/regionserver/SegmentScanner.java:380-389 | the cell order is transitive |
| Cells.FirstOnRowIsFirst | hbase-server/src/main/java/org/apache/hadoop/hbase/regionserver/SegmentScanner.java:194-201 | a first-on-row key sorts no later than every real cell of its row |

## Left out

- Segment.java is not part of this model. A segment is its sorted cells, as a fixed snapshot, plus its scanner count. The concurrency with a flush that the reseek comment describes is not modelled.
- Null arguments to reseek, backwardSeek and seekToPreviousRow are not modelled. These methods take a cell. A null key makes backwardSeek close the scanner through seek(null) and return false; a null cell makes reseek fail inside tailSet.
- Scanner.SegmentScanner.Peek: the RuntimeException branch is modelled as an error result, and the scanner's invariant makes it unreachable.
- The scanner's scan metrics, shouldUseScanner, requestSeek, enforceSeek (which always throws), getNextIndexedKey, shipped and toString are not modelled. None of them is part of the cursor logic.
- The block codec is reduced to sizes: encoding, compression, encryption, checksums and block headers. Blocks.Codec is a set of size functions and a boundary predicate with no further content.
- The data block index writer and the Bloom filter writers are reduced to lists of entries and block sizes. writeIndexBlocks writes one root block, and intermediate index levels are not modelled.
- The data block index is single-level. Every entry goes to the root, the inline leaf-level index writer never receives entries, and leaf index blocks are never written. The trailer's dataIndexCount is therefore the number of data blocks.
- FileWriter.HFileWriter.WriteLoadOnOpenSection: the trailer does not record numDataIndexLevels or uncompressedDataIndexSize (lines 680-681). Both depend on the multi-level index writer, which is not part of this model.
- FileWriter.HFileWriter.constructor: a context whose cell comparator, compression algorithm or encryption context is null is not accepted. The source accepts one. A null comparator, which the no-argument HFileContext() leaves (HFileContext.java:76-80), makes checkKey fail on a null dereference at the second append (HFileWriterImpl.java:250) and close fail the same way at line 684. A null encryption context makes finishClose fail on a null dereference at lines 846-851. A null compression algorithm reaches the trailer at line 859, whose serialisation is not part of this model. Contexts built by the builder never leave these null (Context.CreateDefaults).
- FileWriter.HFileWriter.Append: an append after close is not accepted. In the source it is accepted until the next finishBlock dereferences the dropped outputStream (HFileWriterImpl.java:357-361), or, on a borrowed stream, writes after the trailer.
- blockWriter.release() at the end of close (line 689) is not modelled. Nor is whether the index writers allow writeIndexBlocks to run twice. A second close of a writer on a borrowed stream is therefore modelled as running the close sequence again on live block and index writers.
- The cell comparator's ordering of search keys of type Minimum ("last on row" keys) after every cell of their row is not modelled. Cells.CompareKeys orders by row, family, qualifier, timestamp and type only. The scanner's seek and reseek with such a key therefore land at the start of the row rather than past it.
- Java's 64-bit overflow of the long counters (entryCount, totalKeyLength, totalValueLength, totalUncompressedBytes, maxMemstoreTS) is not modelled. They are unbounded integers here, which agrees with the source below 2^63.
- Context.HeapSize counts the name's length in Unicode scalar values. Java's String.length() counts UTF-16 code units, and the two differ for names with characters outside the Basic Multilingual Plane.
- blockEncoder.saveMetadata and indexBlockEncoder.saveMetadata at the start of close are not modelled. They add encoder-specific file info entries.
- Cache-on-write (doCacheOnWrite, buildCacheBlockKey), createOutputStream, closing the underlying stream beyond an open flag, trailer serialisation, encryption key wrapping in finishClose, write latency timing and logging are not modelled.
- The float ratio behind encodedBlockSizeLimit is not modelled. The constructor takes the resulting int.
- The ByteBuffer overload of getMinimumMidpointArray is not modelled. It repeats the array version on buffers.
- beforeShipped, getPos, getPath, checkValue and the text of checkKey's error message are not modelled.
- The meta-table comparator is modelled only as a flag that switches getMidpoint's optimisation off; it sorts like the inner-store comparator.
- HFileContext's toString, clone and the contents of the decompression context are not modelled. The JVM-dependent sizes behind FIXED_OVERHEAD, ClassSize.STRING and the array header are parameters.
- WriterSpec.AverageWhenItFits: finishFileInfo's averages are modelled with Java's (int) cast. The lemma states their value only when the quotient fits in an int.
