/**
 * src/lib.rs: the callback-style index reader. `unpack` decompresses a
 * container into a buffer reserved to its uncompressed size and hands the
 * bytes to a callback; `read_index_headers` parses the three tables and
 * unpacks the container behind them; `read_index` chains the two and
 * decodes the path table. Each callback is modelled by returning what it
 * would be given.
 */
module Lib {
  import opened Wire
  import opened Cursors
  import opened Container
  import IndexTables
  import PathTable

  /**
   * What `unpack` hands its callback: header, size table, then a buffer
   * reserved to the uncompressed size (more than `isize::MAX` bytes aborts,
   * after the size table has been read) and every chunk appended to it.
   * There is no capacity check, and the failure message of a chunk reads
   * its first two bytes.
   */
  function Unpacked(data: seq<u8>, codec: Codec): (r: Result<seq<u8>>)
    ensures HEADER_SIZE <= |data| && HEADER_SIZE + 4 * LeU32(data, 36) <= |data| && LeU64(data, 20) > ISIZE_MAX
      ==> r == Err(CapacityOverflow)
    ensures r.Ok? <==> Expand(data, codec, true).Ok? && ParseHeader(data).value.uncompressedSize <= ISIZE_MAX
    ensures r.Ok? ==> r == Expand(data, codec, true)
  {
    var h :- ParseHeader(data);
    var sizes :- ChunkSizes(data, h.chunkCount);
    if h.uncompressedSize > ISIZE_MAX then Err(CapacityOverflow) else Expand(data, codec, true)
  }

  /** `unpack`. */
  method Unpack(data: seq<u8>, codec: Codec) returns (r: Result<seq<u8>>)
    ensures r == Unpacked(data, codec)
  {
    var c := new Cursor(data);
    var h :- ReadHeader(c);
    var sizes :- ReadChunkSizes(c, h.chunkCount);
    if h.uncompressedSize > ISIZE_MAX {
      return Err(CapacityOverflow);
    }
    var output := new ByteVec.WithCapacity(h.uncompressedSize);
    var written :- WriteChunks(data, h, sizes, codec, true, output);
    assert Expand(data, codec, true).Ok? ==> [] + Expand(data, codec, true).value == Expand(data, codec, true).value;
    return Ok(output.bytes);
  }

  /**
   * The three tables, and the unpacked container that follows the last path
   * rep. The remainder is always sliced within the data, so that slice never
   * fails, and a bundle id is never looked up.
   */
  function HeadersOf(data: seq<u8>, codec: Codec): (r: Result<(IndexTables.Index, seq<u8>)>)
    ensures r.Ok? ==> IndexTables.LibTables(data).Ok? && r.value.0 == IndexTables.LibTables(data).value.0
    ensures IndexTables.LibTables(data).Ok? ==> var pos := IndexTables.LibTables(data).value.1;
      && pos <= |data|
      && (r.Ok? <==> Unpacked(data[pos..], codec).Ok?)
      && (r.Ok? ==> r.value.1 == Unpacked(data[pos..], codec).value)
    ensures r.Err? ==> r.failure != UnknownBundle && r.failure != NoSuchFile && r.failure != ReadFailed
  {
    var tables :- IndexTables.LibTables(data);
    IndexTables.LibTablesLayout(data);
    var rest :- Unpacked(data[tables.1..], codec);
    Ok((tables.0, rest))
  }

  /** `read_index_headers`. */
  method ReadIndexHeaders(data: seq<u8>, codec: Codec) returns (r: Result<(IndexTables.Index, seq<u8>)>)
    ensures r == HeadersOf(data, codec)
  {
    var c := new Cursor(data);
    var bundles :- IndexTables.ReadBundles(c);
    var files :- IndexTables.ReadFiles(c);
    var pathReps :- IndexTables.ReadPathReps(c);
    IndexTables.LibTablesLayout(data);
    var remainder := data[c.pos..];
    var index := IndexTables.Index(bundles, files, pathReps);
    var bytes :- Unpack(remainder, codec);
    return Ok((index, bytes));
  }

  /** The index and the paths `read_index` hands to its callback. */
  function ReadIndexOf(data: seq<u8>, codec: Codec): (r: Result<(IndexTables.Index, seq<seq<u8>>)>)
    ensures Unpacked(data, codec).Err? ==> r == Err(Unpacked(data, codec).failure)
    ensures r.Ok? ==> Unpacked(data, codec).Ok? && IndexTables.LibTables(Unpacked(data, codec).value).Ok?
    ensures r.Ok? ==> PathTable.TextsValid(r.value.1)
    ensures r.Err? ==> r.failure != UnknownBundle && r.failure != NoSuchFile && r.failure != ReadFailed
  {
    var unpacked :- Unpacked(data, codec);
    var headers :- HeadersOf(unpacked, codec);
    var paths :- PathTable.Decode(headers.1);
    Ok((headers.0, paths))
  }

  /** `read_index`: unpack, read the headers, then the path loop (the same loop as `build_paths`). */
  method ReadIndex(data: seq<u8>, codec: Codec) returns (r: Result<(IndexTables.Index, seq<seq<u8>>)>)
    ensures r == ReadIndexOf(data, codec)
  {
    var unpacked :- Unpack(data, codec);
    var headers :- ReadIndexHeaders(unpacked, codec);
    var paths :- PathTable.BuildPaths(headers.1);
    return Ok((headers.0, paths));
  }
}
