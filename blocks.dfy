/**
 * The collaborators the file writer drives, reduced to what the writer can
 * observe of them: the output stream (a position and the blocks laid down so
 * far), the block writer (a writing flag and byte counters), and inline block
 * writers (a queue of chunks they want to contribute).
 */
module Blocks {
  import opened Cells

  /** BlockType: the kinds of block an HFile holds. */
  datatype BlockType =
    | DataBlock
    | EncodedDataBlock
    | LeafIndexBlock
    | BloomChunkBlock
    | MetaBlock
    | IntermediateIndexBlock
    | RootIndexBlock
    | FileInfoBlock
    | GeneralBloomMetaBlock
    | DeleteFamilyBloomMetaBlock
    | TrailerBlock
    | IndexV1Block

  /** One block as it lands on the stream: its type, where it starts, and its on-disk size. */
  datatype Written = Written(blockType: BlockType, offset: nat, size: nat)

  /**
   * What the block codec (encoding, compression, checksums) does to sizes,
   * as opaque functions: the header length, the unencoded and encoded bytes a
   * cell adds to a data block, the payload bytes of a non-data block with n
   * entries, the on-disk size of a block's data, and the boundary predicate.
   */
  datatype Codec = Codec(
    headerSize: nat,
    rawSize: Cell -> nat,
    encodedSize: Cell -> nat,
    payloadSize: (BlockType, nat) -> nat,
    onDiskSize: (BlockType, nat) -> nat,
    boundary: (nat, nat) -> bool)
  {
    /** Every block has a header, and every cell adds at least one byte. */
    ghost predicate Valid() {
      headerSize > 0 && forall c :: rawSize(c) > 0
    }
  }

  /** Each block starts where the one before it ended; the stream position is where the last one ends. */
  ghost predicate Contiguous(log: seq<Written>, start: nat, pos: nat)
    decreases |log|
  {
    if |log| == 0 then pos == start
    else
      var n := |log| - 1;
      Contiguous(log[..n], start, log[n].offset) && pos == log[n].offset + log[n].size
  }

  ghost predicate PositiveSizes(log: seq<Written>)
    decreases |log|
  {
    |log| > 0 ==> PositiveSizes(log[..|log| - 1]) && log[|log| - 1].size > 0
  }

  /** An output stream as a value: where it started, its position, the blocks laid down so far, whether it is open. */
  datatype StreamView = StreamView(start: nat, pos: nat, log: seq<Written>, open: bool)
  {
    /** The blocks tile the stream from its start to its position, and none is empty. */
    ghost predicate Valid() {
      Contiguous(log, start, pos) && PositiveSizes(log)
    }

    /** The stream after one more block of the given size, written at the current position. */
    function Emit(blockType: BlockType, size: nat): StreamView {
      this.(pos := pos + size, log := log + [Written(blockType, pos, size)])
    }
  }

  /** An output stream: the bytes written so far, seen as the blocks they form. */
  class Sink {
    const start: nat
    var pos: nat
    var log: seq<Written>
    var open: bool

    function View(): StreamView
      reads this
    {
      StreamView(start, pos, log, open)
    }

    constructor(start: nat)
      ensures View() == StreamView(start, start, [], true) && View().Valid()
    {
      this.start := start;
      pos := start;
      log := [];
      open := true;
    }

    /** Write one block of the given size at the current position. */
    method Emit(blockType: BlockType, size: nat)
      modifies this
      ensures View() == old(View()).Emit(blockType, size)
    {
      log := log + [Written(blockType, pos, size)];
      pos := pos + size;
    }

    method Close()
      modifies this
      ensures View() == old(View()).(open := false)
    {
      open := false;
    }
  }

  /**
   * Emitting a non-empty block keeps the stream valid, adds exactly that
   * block to the log, and moves the position past it.
   */
  lemma EmitKeepsValid(v: StreamView, blockType: BlockType, size: nat)
    requires v.Valid() && size > 0
    ensures v.Emit(blockType, size).Valid()
    ensures v.Emit(blockType, size).log[..|v.log|] == v.log
    ensures v.Emit(blockType, size).pos > v.pos
  {
    var log' := v.Emit(blockType, size).log;
    assert log'[..|v.log|] == v.log;
  }

  /** The first block starts at the stream's start, and each later one where the one before it ended. */
  lemma {:induction false} ContiguousStep(log: seq<Written>, start: nat, pos: nat, i: nat)
    requires Contiguous(log, start, pos)
    requires i < |log|
    ensures i == 0 ==> log[0].offset == start
    ensures i > 0 ==> log[i].offset == log[i - 1].offset + log[i - 1].size
    decreases |log|
  {
    var n := |log| - 1;
    var init := log[..n];
    if i < n {
      ContiguousStep(init, start, log[n].offset, i);
      assert init[i] == log[i];
      if i > 0 {
        assert init[i - 1] == log[i - 1];
      }
    } else if n > 0 {
      assert init[n - 1] == log[n - 1];
    }
  }

  /** Every block of a log with positive sizes has a positive size. */
  lemma {:induction false} PositiveSizeAt(log: seq<Written>, i: nat)
    requires PositiveSizes(log)
    requires i < |log|
    ensures log[i].size > 0
    decreases |log|
  {
    if i < |log| - 1 {
      PositiveSizeAt(log[..|log| - 1], i);
    }
  }

  /** Appending a block of positive size keeps every size positive. */
  lemma PositiveSizesAppend(log: seq<Written>, w: Written)
    requires PositiveSizes(log) && w.size > 0
    ensures PositiveSizes(log + [w])
  {
    assert (log + [w])[..|log|] == log;
  }

  /**
   * On a stream whose blocks all have a positive size, offsets strictly
   * increase with the position in the log.
   */
  lemma {:induction false} OffsetsIncrease(log: seq<Written>, start: nat, pos: nat, i: nat, j: nat)
    requires Contiguous(log, start, pos) && PositiveSizes(log)
    requires i < j < |log|
    ensures log[i].offset < log[j].offset
    decreases j - i
  {
    if j > i + 1 {
      OffsetsIncrease(log, start, pos, i, j - 1);
    }
    ContiguousStep(log, start, pos, j);
    PositiveSizeAt(log, j - 1);
  }

  /** Every block lies before the stream position. */
  lemma {:induction false} BlocksEndBeforePosition(log: seq<Written>, start: nat, pos: nat, i: nat)
    requires Contiguous(log, start, pos)
    requires i < |log|
    ensures log[i].offset + log[i].size <= pos
    decreases |log|
  {
    var n := |log| - 1;
    if i < n {
      BlocksEndBeforePosition(log[..n], start, log[n].offset, i);
      assert log[..n][i] == log[i];
    }
  }

  /**
   * HFileBlock.Writer as a value: whether a block is being written, of what
   * type, how many unencoded and encoded bytes it holds, and the sizes of the
   * block most recently finished.
   */
  datatype BlockView = BlockView(
    writing: bool,
    blockType: BlockType,
    rawSize: nat,
    encodedSize: nat,
    onDiskSizeWithHeader: nat,
    uncompressedSizeWithHeader: nat,
    uncompressedSizeWithoutHeader: nat)
  {
    /** blockSizeWritten: the unencoded bytes of the block in progress, 0 when none is. */
    function BlockSizeWritten(): nat {
      if writing then rawSize else 0
    }

    /** encodedBlockSizeWritten: the encoded bytes of the block in progress, 0 when none is. */
    function EncodedBlockSizeWritten(): nat {
      if writing then encodedSize else 0
    }

    /** startWriting: begin a new, empty block of the given type. */
    function StartWriting(t: BlockType): BlockView {
      this.(writing := true, blockType := t, rawSize := 0, encodedSize := 0)
    }

    /** write(cell): the cell's unencoded and encoded bytes join the block in progress. */
    function Write(codec: Codec, c: Cell): BlockView
      requires writing
    {
      this.(rawSize := rawSize + codec.rawSize(c), encodedSize := encodedSize + codec.encodedSize(c))
    }

    /** n payload bytes of a non-data block (an index chunk, a meta block, the file info). */
    function WriteBytes(n: nat): BlockView
      requires writing
    {
      this.(rawSize := rawSize + n, encodedSize := encodedSize + n)
    }

    /** The block writer's side of writeHeaderAndData: the block is finished and its sizes recorded. */
    function Finish(codec: Codec): BlockView
      requires writing
    {
      this.(writing := false,
            onDiskSizeWithHeader := codec.headerSize + codec.onDiskSize(blockType, encodedSize),
            uncompressedSizeWithHeader := codec.headerSize + encodedSize,
            uncompressedSizeWithoutHeader := encodedSize)
    }
  }

  /** The block writer that has not started a block. */
  const IdleBlock := BlockView(false, DataBlock, 0, 0, 0, 0, 0)

  /**
   * The block-boundary test of checkBlockBoundary: a size threshold is met
   * (the encoded size against the encoded limit when one is set, otherwise
   * either size against the block size) and the codec's boundary predicate
   * (checkBoundariesWithPredicate) agrees.
   */
  predicate ShouldFinishBlock(b: BlockView, codec: Codec, encodedBlockSizeLimit: int, blockSize: int) {
    var sizeReached :=
      if encodedBlockSizeLimit > 0 then b.EncodedBlockSizeWritten() >= encodedBlockSizeLimit
      else b.EncodedBlockSizeWritten() >= blockSize || b.BlockSizeWritten() >= blockSize;
    sizeReached && codec.boundary(b.BlockSizeWritten(), b.EncodedBlockSizeWritten())
  }

  /** HFileBlock.Writer, as the file writer drives it. */
  class BlockWriter {
    const codec: Codec
    var writing: bool
    var blockType: BlockType
    var rawSize: nat
    var encodedSize: nat
    var onDiskSizeWithHeader: nat
    var uncompressedSizeWithHeader: nat
    var uncompressedSizeWithoutHeader: nat

    function View(): BlockView
      reads this
    {
      BlockView(writing, blockType, rawSize, encodedSize, onDiskSizeWithHeader,
                uncompressedSizeWithHeader, uncompressedSizeWithoutHeader)
    }

    constructor(codec: Codec)
      ensures this.codec == codec && View() == IdleBlock
    {
      this.codec := codec;
      writing := false;
      blockType := DataBlock;
      rawSize := 0;
      encodedSize := 0;
      onDiskSizeWithHeader := 0;
      uncompressedSizeWithHeader := 0;
      uncompressedSizeWithoutHeader := 0;
    }

    method StartWriting(t: BlockType)
      modifies this
      ensures View() == old(View()).StartWriting(t)
    {
      writing := true;
      blockType := t;
      rawSize := 0;
      encodedSize := 0;
    }

    method Write(c: Cell)
      requires writing
      modifies this
      ensures View() == old(View()).Write(codec, c)
    {
      rawSize := rawSize + codec.rawSize(c);
      encodedSize := encodedSize + codec.encodedSize(c);
    }

    method WriteBytes(n: nat)
      requires writing
      modifies this
      ensures View() == old(View()).WriteBytes(n)
    {
      rawSize := rawSize + n;
      encodedSize := encodedSize + n;
    }

    /**
     * writeHeaderAndData: finish the block in progress and put it on the
     * stream, with a header, at the stream's current position.
     */
    method WriteHeaderAndData(out: Sink)
      requires writing
      modifies this, out
      ensures View() == old(View()).Finish(codec)
      ensures out.View() == old(out.View()).Emit(blockType, onDiskSizeWithHeader)
    {
      writing := false;
      onDiskSizeWithHeader := codec.headerSize + codec.onDiskSize(blockType, encodedSize);
      uncompressedSizeWithHeader := codec.headerSize + encodedSize;
      uncompressedSizeWithoutHeader := encodedSize;
      out.Emit(blockType, onDiskSizeWithHeader);
    }
  }

  /** A finished block is never empty: it has at least its header. */
  lemma FinishedBlockHasSize(b: BlockView, codec: Codec)
    requires b.writing && codec.Valid()
    ensures b.Finish(codec).onDiskSizeWithHeader > 0
    ensures !b.Finish(codec).writing && b.Finish(codec).blockType == b.blockType
  {
  }

  /**
   * An InlineBlockWriter (the data block index's leaf level, a compound Bloom
   * filter): the chunks it has ready, the partial chunk it would flush on
   * closing, and the (offset, on-disk size) of each block of its that was written.
   */
  datatype InlineWriter = InlineWriter(blockType: BlockType, ready: seq<nat>, partial: nat, written: seq<(nat, nat)>)

  /** shouldWriteBlock: a ready chunk, or a non-empty partial one when the file is closing. */
  predicate ShouldWriteBlock(w: InlineWriter, closing: bool) {
    |w.ready| > 0 || (closing && w.partial > 0)
  }

  /** How many more blocks the writer will contribute before shouldWriteBlock turns false. */
  function Pending(w: InlineWriter, closing: bool): nat {
    |w.ready| + (if closing && w.partial > 0 then 1 else 0)
  }

  /** The payload size of the chunk writeInlineBlock writes next. */
  function NextChunk(w: InlineWriter, closing: bool): nat
    requires ShouldWriteBlock(w, closing)
  {
    if |w.ready| > 0 then w.ready[0] else w.partial
  }

  /** writeInlineBlock: the writer after it has handed over its next chunk. */
  function TakeChunk(w: InlineWriter, closing: bool): (r: InlineWriter)
    requires ShouldWriteBlock(w, closing)
    ensures r.blockType == w.blockType && r.written == w.written
    ensures Pending(r, closing) == Pending(w, closing) - 1
  {
    if |w.ready| > 0 then w.(ready := w.ready[1..]) else w.(partial := 0)
  }

  /** blockWritten: the writer records where its block went. */
  function BlockWritten(w: InlineWriter, offset: nat, onDiskSize: nat): (r: InlineWriter)
    ensures r.blockType == w.blockType && r.ready == w.ready && r.partial == w.partial
    ensures r.written == w.written + [(offset, onDiskSize)]
  {
    w.(written := w.written + [(offset, onDiskSize)])
  }

  /** The total number of blocks a list of inline writers will contribute. */
  function TotalPending(ws: seq<InlineWriter>, closing: bool): nat {
    if |ws| == 0 then 0 else TotalPending(ws[..|ws| - 1], closing) + Pending(ws[|ws| - 1], closing)
  }

  /** A writer contributes a block exactly when it has one pending. */
  lemma ShouldWriteIffPending(w: InlineWriter, closing: bool)
    ensures ShouldWriteBlock(w, closing) <==> Pending(w, closing) > 0
  {
  }

  /** Nothing is pending in a list exactly when no writer in it wants to write. */
  lemma {:induction false} NoPendingIffDrained(ws: seq<InlineWriter>, closing: bool)
    ensures TotalPending(ws, closing) == 0 <==> forall k :: 0 <= k < |ws| ==> !ShouldWriteBlock(ws[k], closing)
  {
    if |ws| > 0 {
      NoPendingIffDrained(ws[..|ws| - 1], closing);
      assert forall k :: 0 <= k < |ws| - 1 ==> ws[..|ws| - 1][k] == ws[k];
    }
  }
}
