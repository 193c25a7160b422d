/**
 * src/reader.rs: the bundle reader. `unpack` decompresses a container into
 * a caller's buffer, reporting the size it needs when the buffer has not
 * reserved enough; `build_index` reads the tables of the unpacked index and
 * the path table behind them; `get`, `size_of` and `write_into` look a
 * logical path up by its hash and cut the file's bytes out of its unpacked
 * bundle.
 */
module Reader {
  import opened Wire
  import opened Cursors
  import opened Container
  import Util
  import IndexTables
  import PathTable

  /**
   * `unpack`: the header is read first; a buffer that has reserved less than
   * the uncompressed size is left alone and the size is returned. Otherwise
   * the size table is read, every chunk is appended, and 0 is returned.
   */
  method Unpack(src: seq<u8>, dst: ByteVec, codec: Codec) returns (r: Result<nat>)
    modifies dst
    ensures match ParseHeader(src)
      case Err(f) => r == Err(f) && dst.bytes == old(dst.bytes)
      case Ok(h) =>
        if old(dst.capacity) < h.uncompressedSize then
          r == Ok(h.uncompressedSize) && dst.bytes == old(dst.bytes) && dst.capacity == old(dst.capacity)
        else match Expand(src, codec, false)
          case Ok(out) => r == Ok(0) && dst.bytes == old(dst.bytes) + out
          case Err(f) => r == Err(f)
  {
    var c := new Cursor(src);
    var h :- ReadHeader(c);
    if dst.capacity < h.uncompressedSize {
      return Ok(h.uncompressedSize);
    }
    var sizes :- ReadChunkSizes(c, h.chunkCount);
    var written :- WriteChunks(src, h, sizes, codec, false, dst);
    return Ok(0);
  }

  /**
   * What every caller of `unpack` gets: a first call with an empty buffer
   * returns the uncompressed size, and a buffer reserved to that size then
   * receives the chunks. Reserving more than `isize::MAX` bytes aborts
   * before any chunk is read; otherwise the result is the decompressed
   * container.
   */
  function Unpacked(src: seq<u8>, codec: Codec): (r: Result<seq<u8>>)
    ensures ParseHeader(src).Ok? && ParseHeader(src).value.uncompressedSize > ISIZE_MAX ==> r == Err(CapacityOverflow)
    ensures r.Ok? <==> Expand(src, codec, false).Ok? && ParseHeader(src).value.uncompressedSize <= ISIZE_MAX
    ensures r.Ok? ==> r == Expand(src, codec, false)
  {
    var h :- ParseHeader(src);
    if h.uncompressedSize > ISIZE_MAX then Err(CapacityOverflow) else Expand(src, codec, false)
  }

  /**
   * The two calls every caller of `unpack` makes: one with an empty buffer
   * to learn the size, then one into a buffer reserved to that size (with a
   * zero uncompressed size the first call already decompresses, into the
   * throw-away buffer).
   */
  method UnpackAll(src: seq<u8>, codec: Codec) returns (r: Result<seq<u8>>)
    ensures r == Unpacked(src, codec)
  {
    var sizing := new ByteVec.WithCapacity(0);
    var size :- Unpack(src, sizing, codec);
    assert size == ParseHeader(src).value.uncompressedSize;
    if size > ISIZE_MAX {
      return Err(CapacityOverflow);
    }
    var dst := new ByteVec.WithCapacity(size);
    var done :- Unpack(src, dst, codec);
    assert Expand(src, codec, false).Ok? ==> [] + Expand(src, codec, false).value == Expand(src, codec, false).value;
    return Ok(dst.bytes);
  }

  /** The index: files keyed by path hash, and the logical paths. */
  datatype BundleIndex = BundleIndex(files: map<nat, IndexTables.BundledFile>, paths: seq<Text>)

  /**
   * The index `build_index` builds from the unpacked index bytes: the file
   * table resolved against the bundle table, then the container that starts
   * after the skipped path reps, unpacked and decoded into paths. Skipping
   * past the end of the data fails when the remainder is sliced.
   */
  function IndexOf(data: seq<u8>, codec: Codec): (r: Result<BundleIndex>)
    ensures r.Ok? ==> IndexTables.ReaderTables(data).Ok? && r.value.files == IndexTables.ReaderTables(data).value.0
    ensures IndexTables.ReaderTables(data).Ok? && IndexTables.ReaderTables(data).value.1 > |data| ==> r == Err(SliceOutOfRange)
    ensures r.Ok? ==> PathTable.TextsValid(r.value.paths)
  {
    var tables :- IndexTables.ReaderTables(data);
    if tables.1 > |data| then Err(SliceOutOfRange)
    else
      var blob :- Unpacked(data[tables.1..], codec);
      var paths :- PathTable.Decode(blob);
      Ok(BundleIndex(tables.0, paths))
  }

  /** `build_index`. */
  method BuildIndex(data: seq<u8>, codec: Codec) returns (r: Result<BundleIndex>)
    ensures r == IndexOf(data, codec)
  {
    var tables :- IndexTables.ReadReaderTables(data);
    var (files, pos) := tables;
    if pos > |data| {
      return Err(SliceOutOfRange);
    }
    var blob :- UnpackAll(data[pos..], codec);
    var paths :- PathTable.BuildPaths(blob);
    return Ok(BundleIndex(files, paths));
  }

  /** The index read from the packed index file: unpacked, then built. */
  function ReadIndexOf(data: seq<u8>, codec: Codec): (r: Result<BundleIndex>)
    ensures Unpacked(data, codec).Err? ==> r == Err(Unpacked(data, codec).failure)
    ensures r.Ok? ==> Unpacked(data, codec).Ok? && IndexTables.ReaderTables(Unpacked(data, codec).value).Ok?
    ensures r.Ok? ==> PathTable.TextsValid(r.value.paths)
  {
    var unpacked :- Unpacked(data, codec);
    IndexOf(unpacked, codec)
  }

  /** `BundleIndex::read_index`. */
  method ReadIndex(data: seq<u8>, codec: Codec) returns (r: Result<BundleIndex>)
    ensures r == ReadIndexOf(data, codec)
  {
    var unpacked :- UnpackAll(data, codec);
    r := BuildIndex(unpacked, codec);
  }

  /**
   * `get`: the file stored under the path's key, if any. The key is that of
   * the lower-cased path, so the lookup does not depend on ASCII case.
   */
  function Get(index: BundleIndex, path: Text): (r: Option<IndexTables.BundledFile>)
    ensures r.Some? <==> Util.FilepathHash(path) in index.files
    ensures r.Some? ==> var key := Util.FilepathHash(Util.AsciiLower(path));
      key in index.files && r.value == index.files[key]
  {
    var key := Util.FilepathHash(path);
    assert key == Util.FilepathHash(Util.AsciiLower(path)) by {
      Util.FilepathHashOfLowered(path);
    }
    if key in index.files then Some(index.files[key]) else None
  }

  /** `size_of`: the stored size of the file the path names. */
  function SizeOf(index: BundleIndex, path: Text): (r: Option<nat>)
    ensures r.Some? <==> Get(index, path).Some?
    ensures r.Some? ==> r.value == Get(index, path).value.size
  {
    match Get(index, path)
    case None => None
    case Some(file) => Some(file.size)
  }

  /**
   * The bytes of the bundle stored at a path below the install directory,
   * read from disk or from the GGPK archive; `None` when the read fails or
   * the archive record lies outside the mapped archive.
   */
  type Fetch = Text -> Option<seq<u8>>

  const BUNDLES_DIR: Text := [66, 117, 110, 100, 108, 101, 115, 50, 47]            // "Bundles2/"
  const BUNDLE_EXT: Text := [46, 98, 117, 110, 100, 108, 101, 46, 98, 105, 110]  // ".bundle.bin"

  /** Where a bundle is stored: "Bundles2/<name>.bundle.bin". */
  function BundlePath(name: Text): (p: Text)
    ensures |p| == |name| + 20
    ensures p[..9] == BUNDLES_DIR && p[9..9 + |name|] == name && p[9 + |name|..] == BUNDLE_EXT
  {
    BUNDLES_DIR + name + BUNDLE_EXT
  }

  /**
   * What `write_into` writes for a path: a path with no entry fails (the
   * final `unwrap`), a bundle that cannot be fetched fails, and otherwise
   * the bundle is unpacked and the file's bytes are cut out of it at its
   * offset; a slice past the end fails.
   */
  function FileBytes(index: BundleIndex, path: Text, fetch: Fetch, codec: Codec): (r: Result<seq<u8>>)
    ensures Get(index, path).None? ==> r == Err(NoSuchFile)
    ensures r.Ok? ==> SizeOf(index, path) == Some(|r.value|)
    ensures r.Err? ==> r.failure != UnknownBundle && r.failure != InvalidUtf8
  {
    match Get(index, path)
    case None => Err(NoSuchFile)
    case Some(file) =>
      match fetch(BundlePath(file.bundlePath))
      case None => Err(ReadFailed)
      case Some(bundle) =>
        var unpacked :- Unpacked(bundle, codec);
        if file.offset + file.size > |unpacked| then Err(SliceOutOfRange)
        else Ok(unpacked[file.offset..file.offset + file.size])
  }

  /** `write_into`, writing into a byte buffer; the count of bytes written is returned. */
  method WriteInto(index: BundleIndex, path: Text, fetch: Fetch, codec: Codec, dst: ByteVec) returns (r: Result<nat>)
    modifies dst
    ensures match FileBytes(index, path, fetch, codec)
      case Ok(bytes) => r == Ok(|bytes|) && dst.bytes == old(dst.bytes) + bytes
      case Err(f) => r == Err(f) && dst.bytes == old(dst.bytes)
  {
    var entry := Get(index, path);
    if entry.None? {
      return Err(NoSuchFile);
    }
    var file := entry.value;
    var fetched := fetch(BundlePath(file.bundlePath));
    if fetched.None? {
      return Err(ReadFailed);
    }
    var unpacked :- UnpackAll(fetched.value, codec);
    if file.offset + file.size > |unpacked| {
      return Err(SliceOutOfRange);
    }
    dst.Write(unpacked[file.offset..file.offset + file.size]);
    return Ok(file.size);
  }

  // ---------------------------------------------------------------------
  // Facts about lookups.

  /** Paths that differ only in ASCII case find the same file. */
  lemma GetIgnoresCase(index: BundleIndex, path: Text, other: Text)
    requires Util.AsciiLower(path) == Util.AsciiLower(other)
    ensures Get(index, path) == Get(index, other)
    ensures SizeOf(index, path) == SizeOf(index, other)
  {
    Util.FilepathHashIgnoresCase(path, other);
  }

  /**
   * A path finds the last file record carrying its key, whatever the
   * records before it said.
   */
  lemma GetFindsLastRecord(pairs: seq<(nat, IndexTables.BundledFile)>, paths: seq<Text>, path: Text, k: nat)
    requires k < |pairs| && pairs[k].0 == Util.FilepathHash(path)
    requires forall j :: k < j < |pairs| ==> pairs[j].0 != pairs[k].0
    ensures Get(BundleIndex(IndexTables.Table(pairs), paths), path) == Some(pairs[k].1)
    ensures SizeOf(BundleIndex(IndexTables.Table(pairs), paths), path) == Some(pairs[k].1.size)
  {
    IndexTables.TableLastWins(pairs, k);
  }

  /** A path whose key no file record carries finds nothing. */
  lemma GetMisses(pairs: seq<(nat, IndexTables.BundledFile)>, paths: seq<Text>, path: Text, fetch: Fetch, codec: Codec)
    requires forall j :: 0 <= j < |pairs| ==> pairs[j].0 != Util.FilepathHash(path)
    ensures Get(BundleIndex(IndexTables.Table(pairs), paths), path) == None
    ensures FileBytes(BundleIndex(IndexTables.Table(pairs), paths), path, fetch, codec) == Err(NoSuchFile)
  {
    IndexTables.TableKeys(pairs, Util.FilepathHash(path));
  }

  /**
   * With a codec that fills its destination and a bundle whose chunk count
   * matches its sizes, cutting the file out succeeds exactly when it lies
   * within the bundle's uncompressed size.
   */
  lemma FileBytesInRange(index: BundleIndex, path: Text, fetch: Fetch, codec: Codec)
    requires FillsDestination(codec)
    requires Get(index, path).Some?
    requires var file := Get(index, path).value;
      && fetch(BundlePath(file.bundlePath)).Some?
      && var bundle := fetch(BundlePath(file.bundlePath)).value;
      && Unpacked(bundle, codec).Ok?
      && var h := ParseHeader(bundle).value;
      IsChunkCount(h.chunkCount, h.uncompressedSize, h.chunkUnpackedSize)
    ensures var file := Get(index, path).value;
      var h := ParseHeader(fetch(BundlePath(file.bundlePath)).value).value;
      FileBytes(index, path, fetch, codec).Ok? <==> file.offset + file.size <= h.uncompressedSize
  {
    var file := Get(index, path).value;
    ExpandLength(fetch(BundlePath(file.bundlePath)).value, codec, false);
  }
}
