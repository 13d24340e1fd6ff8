/**
 * HFileContext: the read-only configuration a writer (and a reader) of one
 * file works with. In the source it is an object built by a builder and then
 * adjusted by a few setters; here it is a value, and each setter returns an
 * updated value.
 */
module Context {
  import opened Bytes
  import opened Cells
  import opened Errors

  datatype CompressionAlgorithm = NoCompression | Lzo | Gz | Snappy | Lz4 | Bzip2 | Zstd | Lzma | Brotli

  datatype DataBlockEncoding = NoEncoding | Prefix | Diff | FastDiff | RowIndexV1

  datatype IndexBlockEncoding = NoIndexEncoding | PrefixTree

  datatype ChecksumType = NullChecksum | Crc32 | Crc32c

  /** Encryption.Context: the shared NONE instance, or a cipher with its key. */
  datatype EncryptionContext = NoEncryption | Encryption(cipher: string, key: Bytes)

  /** Codec-specific decompression settings; only their heap size matters here. */
  datatype DecompressionContext = DecompressionContext(heapSize: nat)

  /** DEFAULT_BYTES_PER_CHECKSUM. */
  const DEFAULT_BYTES_PER_CHECKSUM: int := 16 * 1024

  /** HConstants.DEFAULT_BLOCKSIZE, 64 KiB. */
  const DEFAULT_BLOCKSIZE: int := 64 * 1024

  /** ChecksumType.getDefaultChecksumType(). */
  const DEFAULT_CHECKSUM_TYPE: ChecksumType := Crc32c

  /** "hbase:meta", the name of the catalog table. */
  const META_TABLE_NAME: Bytes := [0x68, 0x62, 0x61, 0x73, 0x65, 0x3a, 0x6d, 0x65, 0x74, 0x61]

  /** The seventeen fields of HFileContext; a null reference is None. */
  datatype HFileContext = HFileContext(
    usesHBaseChecksum: bool,
    includesMvcc: bool,
    includesTags: bool,
    compressAlgo: Option<CompressionAlgorithm>,
    decompressionContext: Option<DecompressionContext>,
    compressTags: bool,
    checksumType: ChecksumType,
    bytesPerChecksum: int,
    blockSize: int,
    encoding: DataBlockEncoding,
    indexBlockEncoding: IndexBlockEncoding,
    cryptoContext: Option<EncryptionContext>,
    fileCreateTime: Long,
    hfileName: Option<string>,
    columnFamily: Option<Bytes>,
    tableName: Option<Bytes>,
    cellComparator: Option<CellComparator>)

  /** The empty constructor: every field at its declared initial value. */
  function Default(): HFileContext {
    HFileContext(
      usesHBaseChecksum := true,
      includesMvcc := true,
      includesTags := false,
      compressAlgo := Some(NoCompression),
      decompressionContext := None,
      compressTags := false,
      checksumType := DEFAULT_CHECKSUM_TYPE,
      bytesPerChecksum := DEFAULT_BYTES_PER_CHECKSUM,
      blockSize := DEFAULT_BLOCKSIZE,
      encoding := NoEncoding,
      indexBlockEncoding := NoIndexEncoding,
      cryptoContext := Some(NoEncryption),
      fileCreateTime := 0,
      hfileName := None,
      columnFamily := None,
      tableName := None,
      cellComparator := None)
  }

  /** The copy constructor: field by field. */
  function Copy(c: HFileContext): (r: HFileContext)
    ensures r == c
  {
    HFileContext(
      usesHBaseChecksum := c.usesHBaseChecksum,
      includesMvcc := c.includesMvcc,
      includesTags := c.includesTags,
      compressAlgo := c.compressAlgo,
      decompressionContext := c.decompressionContext,
      compressTags := c.compressTags,
      checksumType := c.checksumType,
      bytesPerChecksum := c.bytesPerChecksum,
      blockSize := c.blockSize,
      encoding := c.encoding,
      cryptoContext := c.cryptoContext,
      fileCreateTime := c.fileCreateTime,
      hfileName := c.hfileName,
      columnFamily := c.columnFamily,
      tableName := c.tableName,
      cellComparator := c.cellComparator,
      indexBlockEncoding := c.indexBlockEncoding)
  }

  /** InnerStoreCellComparator.getInnerStoreCellComparator: the meta comparator for the catalog table. */
  function TableComparator(tableName: Bytes): CellComparator {
    if tableName == META_TABLE_NAME then MetaComparator else InnerStoreComparator
  }

  /**
   * The comparator the full constructor settles on: the one given, else the
   * one the table name implies, else the inner-store comparator.
   */
  function ChooseComparator(given: Option<CellComparator>, tableName: Option<Bytes>): CellComparator {
    if given.Some? then given.value
    else if tableName.Some? then TableComparator(tableName.value)
    else InnerStoreComparator
  }

  /**
   * The full constructor. A null data or index block encoding leaves the field
   * at NONE, and a null comparator is replaced by ChooseComparator's choice.
   */
  function Create(
    useHBaseChecksum: bool, includesMvcc: bool, includesTags: bool,
    compressAlgo: Option<CompressionAlgorithm>, decompressionContext: Option<DecompressionContext>,
    compressTags: bool, checksumType: ChecksumType, bytesPerChecksum: int, blockSize: int,
    encoding: Option<DataBlockEncoding>, cryptoContext: Option<EncryptionContext>, fileCreateTime: Long,
    hfileName: Option<string>, columnFamily: Option<Bytes>, tableName: Option<Bytes>,
    cellComparator: Option<CellComparator>, indexBlockEncoding: Option<IndexBlockEncoding>): HFileContext
  {
    var c := Default().(
      usesHBaseChecksum := useHBaseChecksum,
      includesMvcc := includesMvcc,
      includesTags := includesTags,
      compressAlgo := compressAlgo,
      decompressionContext := decompressionContext,
      compressTags := compressTags,
      checksumType := checksumType,
      bytesPerChecksum := bytesPerChecksum,
      blockSize := blockSize);
    var c := if encoding.Some? then c.(encoding := encoding.value) else c;
    var c := if indexBlockEncoding.Some? then c.(indexBlockEncoding := indexBlockEncoding.value) else c;
    c.(
      cryptoContext := cryptoContext,
      fileCreateTime := fileCreateTime,
      hfileName := hfileName,
      columnFamily := columnFamily,
      tableName := tableName,
      cellComparator := Some(ChooseComparator(cellComparator, tableName)))
  }

  /** Whether on-disk blocks are compressed (not NONE) and/or encrypted (not Context.NONE). */
  predicate IsCompressedOrEncrypted(c: HFileContext) {
    var compressed := c.compressAlgo.Some? && c.compressAlgo.value != NoCompression;
    var encrypted := c.cryptoContext.Some? && c.cryptoContext.value != NoEncryption;
    compressed || encrypted
  }

  // ---- setters: each returns the context with one field replaced ----

  function SetIncludesMvcc(c: HFileContext, includesMvcc: bool): (r: HFileContext)
    ensures r.includesMvcc == includesMvcc
    ensures r.(includesMvcc := c.includesMvcc) == c
  {
    c.(includesMvcc := includesMvcc)
  }

  function SetIncludesTags(c: HFileContext, includesTags: bool): (r: HFileContext)
    ensures r.includesTags == includesTags
    ensures r.(includesTags := c.includesTags) == c
  {
    c.(includesTags := includesTags)
  }

  function SetFileCreateTime(c: HFileContext, fileCreateTime: Long): (r: HFileContext)
    ensures r.fileCreateTime == fileCreateTime
    ensures r.(fileCreateTime := c.fileCreateTime) == c
  {
    c.(fileCreateTime := fileCreateTime)
  }

  function SetCompressTags(c: HFileContext, compressTags: bool): (r: HFileContext)
    ensures r.compressTags == compressTags
    ensures r.(compressTags := c.compressTags) == c
  {
    c.(compressTags := compressTags)
  }

  function SetEncryptionContext(c: HFileContext, cryptoContext: Option<EncryptionContext>): (r: HFileContext)
    ensures r.cryptoContext == cryptoContext
    ensures r.(cryptoContext := c.cryptoContext) == c
  {
    c.(cryptoContext := cryptoContext)
  }

  // ---- heap size ----

  /**
   * The JVM-dependent sizes ClassSize supplies: the estimated base size of an
   * HFileContext object, of a String object, and of an array header.
   */
  datatype HeapLayout = HeapLayout(fixedOverhead: nat, stringOverhead: nat, arrayOverhead: nat)

  /** ClassSize.align: round up to a multiple of 8. */
  function Align(n: nat): nat {
    (n + 7) / 8 * 8
  }

  /** ClassSize.sizeOfByteArray. */
  function SizeOfByteArray(layout: HeapLayout, length: nat): nat {
    Align(layout.arrayOverhead + length)
  }

  /** The fixed overhead plus a term for each of name, family, table and decompression context that is set. */
  function HeapSize(c: HFileContext, layout: HeapLayout): nat {
    layout.fixedOverhead
    + (if c.hfileName.Some? then layout.stringOverhead + |c.hfileName.value| else 0)
    + (if c.columnFamily.Some? then SizeOfByteArray(layout, |c.columnFamily.value|) else 0)
    + (if c.tableName.Some? then SizeOfByteArray(layout, |c.tableName.value|) else 0)
    + (if c.decompressionContext.Some? then c.decompressionContext.value.heapSize else 0)
  }

  // ---- properties ----

  /** A fresh context writes plain, checksummed blocks and costs only the fixed overhead. */
  lemma DefaultIsPlain(layout: HeapLayout)
    ensures var d := Default();
      && d.usesHBaseChecksum && d.includesMvcc && !d.includesTags
      && d.bytesPerChecksum == 16384
      && d.encoding == NoEncoding && d.indexBlockEncoding == NoIndexEncoding
      && !IsCompressedOrEncrypted(d)
      && HeapSize(d, layout) == layout.fixedOverhead
  {
  }

  /**
   * The full constructor never leaves the comparator or the encodings unset,
   * and picks the comparator in the order given, table, inner-store default.
   */
  lemma CreateDefaults(
    useHBaseChecksum: bool, includesMvcc: bool, includesTags: bool,
    compressAlgo: Option<CompressionAlgorithm>, decompressionContext: Option<DecompressionContext>,
    compressTags: bool, checksumType: ChecksumType, bytesPerChecksum: int, blockSize: int,
    encoding: Option<DataBlockEncoding>, cryptoContext: Option<EncryptionContext>, fileCreateTime: Long,
    hfileName: Option<string>, columnFamily: Option<Bytes>, tableName: Option<Bytes>,
    cellComparator: Option<CellComparator>, indexBlockEncoding: Option<IndexBlockEncoding>)
    ensures var c := Create(useHBaseChecksum, includesMvcc, includesTags, compressAlgo, decompressionContext,
                            compressTags, checksumType, bytesPerChecksum, blockSize, encoding, cryptoContext,
                            fileCreateTime, hfileName, columnFamily, tableName, cellComparator, indexBlockEncoding);
      && (encoding.None? ==> c.encoding == NoEncoding)
      && (encoding.Some? ==> c.encoding == encoding.value)
      && (indexBlockEncoding.None? ==> c.indexBlockEncoding == NoIndexEncoding)
      && (indexBlockEncoding.Some? ==> c.indexBlockEncoding == indexBlockEncoding.value)
      && c.cellComparator.Some?
      && (cellComparator.Some? ==> c.cellComparator == cellComparator)
      && (cellComparator.None? && tableName == Some(META_TABLE_NAME) ==> c.cellComparator == Some(MetaComparator))
      && ((cellComparator.None? && tableName.Some? && tableName.value != META_TABLE_NAME)
            ==> c.cellComparator == Some(InnerStoreComparator))
      && (cellComparator.None? && tableName.None? ==> c.cellComparator == Some(InnerStoreComparator))
  {
  }

  /**
   * Feeding a context's own fields back through the full constructor rebuilds
   * it, as long as its comparator is set (the constructor never leaves it null).
   */
  lemma CreateRebuildsContext(c: HFileContext)
    requires c.cellComparator.Some?
    ensures Create(c.usesHBaseChecksum, c.includesMvcc, c.includesTags, c.compressAlgo, c.decompressionContext,
                   c.compressTags, c.checksumType, c.bytesPerChecksum, c.blockSize, Some(c.encoding),
                   c.cryptoContext, c.fileCreateTime, c.hfileName, c.columnFamily, c.tableName,
                   c.cellComparator, Some(c.indexBlockEncoding)) == Copy(c)
  {
  }

  /** Setting a real encryption context makes the blocks count as encrypted. */
  lemma EncryptionMakesEncrypted(c: HFileContext, cipher: string, key: Bytes)
    ensures IsCompressedOrEncrypted(SetEncryptionContext(c, Some(Encryption(cipher, key))))
  {
  }

  /** Without compression, clearing the encryption context makes the blocks plain again. */
  lemma NoEncryptionNoCompressionIsPlain(c: HFileContext, cryptoContext: Option<EncryptionContext>)
    requires c.compressAlgo.None? || c.compressAlgo == Some(NoCompression)
    requires cryptoContext.None? || cryptoContext == Some(NoEncryption)
    ensures !IsCompressedOrEncrypted(SetEncryptionContext(c, cryptoContext))
  {
  }

  /** The setters other than the encryption one do not change what the predicate or heap size say. */
  lemma SettersKeepDerivedValues(c: HFileContext, b: bool, t: Long, layout: HeapLayout)
    ensures var cs := [SetIncludesMvcc(c, b), SetIncludesTags(c, b), SetFileCreateTime(c, t), SetCompressTags(c, b)];
      forall i :: 0 <= i < |cs| ==>
        IsCompressedOrEncrypted(cs[i]) == IsCompressedOrEncrypted(c) && HeapSize(cs[i], layout) == HeapSize(c, layout)
  {
  }

  /**
   * The heap size is at least the fixed overhead, grows by at least the length
   * of each name, family or table that is set, and is exactly the fixed
   * overhead when none of the four optional fields is set.
   */
  lemma HeapSizeBounds(c: HFileContext, layout: HeapLayout)
    ensures HeapSize(c, layout) >= layout.fixedOverhead
    ensures c.hfileName.Some? ==> HeapSize(c, layout) >= layout.fixedOverhead + layout.stringOverhead + |c.hfileName.value|
    ensures c.columnFamily.Some? ==> HeapSize(c, layout) >= layout.fixedOverhead + |c.columnFamily.value|
    ensures c.tableName.Some? ==> HeapSize(c, layout) >= layout.fixedOverhead + |c.tableName.value|
    ensures (c.hfileName.None? && c.columnFamily.None? && c.tableName.None? && c.decompressionContext.None?)
              ==> HeapSize(c, layout) == layout.fixedOverhead
  {
    if c.columnFamily.Some? {
      AlignRoundsUp(layout.arrayOverhead + |c.columnFamily.value|);
    }
    if c.tableName.Some? {
      AlignRoundsUp(layout.arrayOverhead + |c.tableName.value|);
    }
  }

  /** Alignment rounds up to the next multiple of 8, by less than 8. */
  lemma AlignRoundsUp(n: nat)
    ensures n <= Align(n) < n + 8
    ensures Align(n) % 8 == 0
  {
  }
}
