/**
 * src/reader.rs and src/lib.rs read the same index file in two ways. Where
 * both succeed they agree: the same paths, and the reader's file table is
 * lib's raw file table with each bundle id resolved.
 */
module Agreement {
  import opened Wire
  import opened Container
  import IndexTables
  import PathTable
  import Reader
  import Lib

  /** Where lib's `unpack` succeeds, the reader's two `unpack` calls give the same bytes. */
  lemma UnpackedAgree(src: seq<u8>, codec: Codec)
    requires Lib.Unpacked(src, codec).Ok?
    ensures Reader.Unpacked(src, codec) == Lib.Unpacked(src, codec)
  {
    ExpandProbeOnlyFails(src, codec);
  }

  /**
   * The two report an oversized container differently when its size table is
   * also cut short: the reader reserves before it reads the table and aborts
   * there, lib reads the table first and runs out of bytes.
   */
  lemma OversizeOrder(src: seq<u8>, codec: Codec)
    requires HEADER_SIZE <= |src| && LeU64(src, 20) > ISIZE_MAX
    requires |src| < HEADER_SIZE + 4 * LeU32(src, 36)
    ensures Reader.Unpacked(src, codec) == Err(CapacityOverflow)
    ensures Lib.Unpacked(src, codec) == Err(EndOfStream)
  {
  }

  /**
   * A header claiming 2^63 uncompressed bytes and no chunks: both abort at
   * the reservation instead of returning an empty buffer.
   */
  lemma OversizedHeader(codec: Codec)
    ensures Reader.Unpacked(HeaderBytes(Header(0x8000_0000_0000_0000, 0, 1)), codec) == Err(CapacityOverflow)
    ensures Lib.Unpacked(HeaderBytes(Header(0x8000_0000_0000_0000, 0, 1)), codec) == Err(CapacityOverflow)
  {
    var h := Header(0x8000_0000_0000_0000, 0, 1);
    ParseHeaderBytes(h, []);
    assert HeaderBytes(h) + [] == HeaderBytes(h);
  }

  /** On the unpacked index, the reader's file table is lib's, resolved against lib's bundle table. */
  lemma TablesAgree(blob: seq<u8>)
    requires IndexTables.ReaderTables(blob).Ok? && IndexTables.LibTables(blob).Ok?
    ensures var index := IndexTables.LibTables(blob).value.0;
      IndexTables.Resolves(index.bundles, IndexTables.ReaderTables(blob).value.0, index.files)
  {
    var (bundles, bundlesEnd) := IndexTables.Counted(IndexTables.BundleAt, blob, 0).value;
    IndexTables.ReaderFiles(blob, bundles, bundlesEnd);
    IndexTables.LibFiles(blob, bundles, bundlesEnd);
    IndexTables.ResolvedRun(IndexTables.BundleMap(bundles), blob, bundlesEnd + 4, LeU32(blob, bundlesEnd));
  }

  /** On the unpacked index, both read the same container after the tables and so decode the same paths. */
  lemma RemaindersAgree(blob: seq<u8>, codec: Codec)
    requires Reader.IndexOf(blob, codec).Ok? && Lib.HeadersOf(blob, codec).Ok?
    ensures PathTable.Decode(Lib.HeadersOf(blob, codec).value.1) == Ok(Reader.IndexOf(blob, codec).value.paths)
  {
    IndexTables.ReaderSkipAgrees(blob);
    var pos := IndexTables.LibTables(blob).value.1;
    IndexTables.LibTablesLayout(blob);
    UnpackedAgree(blob[pos..], codec);
  }

  lemma ReaderAgreesWithLib(data: seq<u8>, codec: Codec)
    requires Reader.ReadIndexOf(data, codec).Ok? && Lib.ReadIndexOf(data, codec).Ok?
    ensures var reader := Reader.ReadIndexOf(data, codec).value;
      var (index, paths) := Lib.ReadIndexOf(data, codec).value;
      && reader.paths == paths
      && IndexTables.Resolves(index.bundles, reader.files, index.files)
  {
    UnpackedAgree(data, codec);
    var blob := Lib.Unpacked(data, codec).value;
    RemaindersAgree(blob, codec);
    TablesAgree(blob);
  }
}
