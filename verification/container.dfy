/**
 * The chunked container ("bundle") layout that both `unpack` functions
 * read: a 60-byte little-endian header, a table of per-chunk compressed
 * sizes, then the compressed chunks back to back. This module states what
 * the unpackers produce; the unpackers themselves are `Reader.Unpack` and
 * `Lib.Unpack`.
 */
module Container {
  import opened Wire
  import opened Cursors

  const HEADER_SIZE: nat := 60

  /**
   * The header fields the unpackers use. The other eleven fields (sizes
   * marked informational, the first chunk's encoding and five unknown words)
   * are read and dropped.
   */
  datatype Header = Header(uncompressedSize: nat, chunkCount: nat, chunkUnpackedSize: nat)

  /**
   * The header: five u32, the u64 uncompressed size at offset 20, a u64, the
   * u32 chunk count at offset 36, the u32 per-chunk unpacked size at offset
   * 40 and four more u32.
   */
  function ParseHeader(src: seq<u8>): (r: Result<Header>)
    ensures r.Ok? <==> |src| >= HEADER_SIZE
    ensures r.Ok? ==> r.value.uncompressedSize < U64_LIMIT
    ensures r.Ok? ==> r.value.chunkCount < U32_LIMIT && r.value.chunkUnpackedSize < U32_LIMIT
    ensures r.Err? ==> r.failure == EndOfStream
  {
    if |src| < HEADER_SIZE then Err(EndOfStream)
    else Ok(Header(LeU64(src, 20), LeU32(src, 36), LeU32(src, 40)))
  }

  predicate HeaderFits(h: Header) {
    h.uncompressedSize < U64_LIMIT && h.chunkCount < U32_LIMIT && h.chunkUnpackedSize < U32_LIMIT
  }

  function Zeros(n: nat): (z: seq<u8>)
    ensures |z| == n && forall i :: 0 <= i < n ==> z[i] == 0
  {
    seq(n, _ => 0)
  }

  /** A header carrying `h`, with every field the unpackers drop set to zero. */
  function HeaderBytes(h: Header): (b: seq<u8>)
    requires HeaderFits(h)
    ensures |b| == HEADER_SIZE
  {
    Zeros(20) + U64Bytes(h.uncompressedSize) + Zeros(8)
      + U32Bytes(h.chunkCount) + U32Bytes(h.chunkUnpackedSize) + Zeros(16)
  }

  /** Parsing the bytes of a header gives that header back, whatever follows it. */
  lemma ParseHeaderBytes(h: Header, rest: seq<u8>)
    requires HeaderFits(h)
    ensures ParseHeader(HeaderBytes(h) + rest) == Ok(h)
  {
    var s := HeaderBytes(h) + rest;
    var U, n, C := h.uncompressedSize, h.chunkCount, h.chunkUnpackedSize;
    assert s == Zeros(20) + U64Bytes(U) + (Zeros(8) + U32Bytes(n) + U32Bytes(C) + Zeros(16) + rest);
    LeU64OfBytes(Zeros(20), U, Zeros(8) + U32Bytes(n) + U32Bytes(C) + Zeros(16) + rest);
    assert s == (Zeros(20) + U64Bytes(U) + Zeros(8)) + U32Bytes(n) + (U32Bytes(C) + Zeros(16) + rest);
    LeU32OfBytes(Zeros(20) + U64Bytes(U) + Zeros(8), n, U32Bytes(C) + Zeros(16) + rest);
    assert s == (Zeros(20) + U64Bytes(U) + Zeros(8) + U32Bytes(n)) + U32Bytes(C) + (Zeros(16) + rest);
    LeU32OfBytes(Zeros(20) + U64Bytes(U) + Zeros(8) + U32Bytes(n), C, Zeros(16) + rest);
  }

  /** The dropped header fields do not matter: only bytes 20..28 and 36..44 are used. */
  lemma ParseHeaderIgnoresDroppedFields(a: seq<u8>, b: seq<u8>)
    requires |a| >= HEADER_SIZE && |b| >= HEADER_SIZE
    requires a[20..28] == b[20..28] && a[36..44] == b[36..44]
    ensures ParseHeader(a) == ParseHeader(b)
  {
    assert forall i :: 20 <= i < 28 ==> a[i] == a[20..28][i - 20];
    assert forall i :: 36 <= i < 44 ==> a[i] == a[36..44][i - 36];
  }

  /** The `count` compressed chunk sizes that follow the header. */
  function ChunkSizes(src: seq<u8>, count: nat): (r: Result<seq<nat>>)
    ensures r.Ok? <==> HEADER_SIZE + 4 * count <= |src|
    ensures r.Ok? ==> |r.value| == count
    ensures r.Ok? ==> forall i :: 0 <= i < count ==> r.value[i] == LeU32(src, HEADER_SIZE + 4 * i)
    ensures r.Err? ==> r.failure == EndOfStream
  {
    if HEADER_SIZE + 4 * count <= |src| then
      Ok(seq(count, i requires 0 <= i < count => LeU32(src, HEADER_SIZE + 4 * i)))
    else
      Err(EndOfStream)
  }

  function Sum(s: seq<nat>): nat
    decreases |s|
  {
    if s == [] then 0 else Sum(s[..|s| - 1]) + s[|s| - 1]
  }

  /**
   * `bytes_to_read` before chunk `i`: it starts at the uncompressed size and
   * drops by the per-chunk size only while it is strictly larger than it.
   */
  function Remaining(total: nat, chunk: nat, i: nat): nat {
    if i == 0 then total
    else
      var before := Remaining(total, chunk, i - 1);
      if before > chunk then before - chunk else before
  }

  function Min(a: nat, b: nat): nat {
    if a < b then a else b
  }

  /** The number of bytes chunk `i` decompresses to: `min(bytes_to_read, chunk_unpacked_size)`. */
  function ChunkLen(total: nat, chunk: nat, i: nat): nat {
    Min(Remaining(total, chunk, i), chunk)
  }

  /** The bytes the first `n` chunks decompress to, together. */
  function TotalLen(total: nat, chunk: nat, n: nat): nat {
    if n == 0 then 0 else TotalLen(total, chunk, n - 1) + ChunkLen(total, chunk, n - 1)
  }

  /** Where chunk `i`'s compressed bytes start: after the header, the size table and the chunks before it. */
  function ChunkOffset(sizes: seq<nat>, i: nat): nat
    requires i <= |sizes|
  {
    HEADER_SIZE + 4 * |sizes| + Sum(sizes[..i])
  }

  /** What the native codec reports: the destination buffer's bytes and its status code. */
  datatype Decoded = Decoded(bytes: seq<u8>, status: int)

  /** The native `Ooz_Decompress`, given the compressed bytes and the destination size. */
  type Codec = (seq<u8>, nat) -> Decoded

  /** The codec fills exactly the destination buffer it is given. */
  ghost predicate FillsDestination(codec: Codec) {
    forall src, n :: |codec(src, n).bytes| == n
  }

  /**
   * Chunk `i`, decompressed. Its compressed bytes must lie inside `src`. A
   * negative status is not a failure; but when `probe` holds, the failure
   * branch reads the chunk's first two bytes, which must then exist.
   */
  function ChunkAt(src: seq<u8>, h: Header, sizes: seq<nat>, i: nat, codec: Codec, probe: bool): Result<seq<u8>>
    requires i < |sizes|
  {
    var offset := ChunkOffset(sizes, i);
    if offset + sizes[i] > |src| then Err(SliceOutOfRange)
    else
      var d := codec(src[offset..offset + sizes[i]], ChunkLen(h.uncompressedSize, h.chunkUnpackedSize, i));
      if probe && d.status < 0 && sizes[i] < 2 then Err(SliceOutOfRange) else Ok(d.bytes)
  }

  /** The first `n` chunks decompressed and appended in index order; the first failing chunk stops it. */
  function Reassemble(src: seq<u8>, h: Header, sizes: seq<nat>, n: nat, codec: Codec, probe: bool): (r: Result<seq<u8>>)
    requires n <= |sizes|
    ensures r.Err? ==> r.failure == SliceOutOfRange
  {
    if n == 0 then Ok([])
    else match Reassemble(src, h, sizes, n - 1, codec, probe)
      case Err(f) => Err(f)
      case Ok(out) =>
        match ChunkAt(src, h, sizes, n - 1, codec, probe)
        case Err(f) => Err(f)
        case Ok(bytes) => Ok(out + bytes)
  }

  /**
   * The whole container decompressed: header, size table, then every chunk.
   * It runs out of input exactly when the header or the size table does not
   * fit; the only other failure is a chunk sliced past the end.
   */
  function Expand(src: seq<u8>, codec: Codec, probe: bool): (r: Result<seq<u8>>)
    ensures r == Err(EndOfStream) <==> |src| < HEADER_SIZE || |src| < HEADER_SIZE + 4 * LeU32(src, 36)
    ensures r.Err? ==> r.failure == EndOfStream || r.failure == SliceOutOfRange
  {
    match ParseHeader(src)
    case Err(f) => Err(f)
    case Ok(h) =>
      match ChunkSizes(src, h.chunkCount)
      case Err(f) => Err(f)
      case Ok(sizes) => Reassemble(src, h, sizes, |sizes|, codec, probe)
  }

  // ---------------------------------------------------------------------
  // Reading the header and the size table through a cursor.

  /** The fifteen header reads of `unpack`. */
  method ReadHeader(c: Cursor) returns (r: Result<Header>)
    requires c.pos == 0
    modifies c
    ensures r == ParseHeader(c.data)
    ensures r.Ok? ==> c.pos == HEADER_SIZE
  {
    var totalUncompressed :- c.ReadU32();
    var totalCompressed :- c.ReadU32();
    var headSize :- c.ReadU32();
    var firstChunkEncoding :- c.ReadU32();
    var unknown0 :- c.ReadU32();
    var uncompressedSize :- c.ReadU64();
    var compressedSize :- c.ReadU64();
    var chunkCount :- c.ReadU32();
    var chunkUnpackedSize :- c.ReadU32();
    var unknown1 :- c.ReadU32();
    var unknown2 :- c.ReadU32();
    var unknown3 :- c.ReadU32();
    var unknown4 :- c.ReadU32();
    return Ok(Header(uncompressedSize, chunkCount, chunkUnpackedSize));
  }

  /** The `chunk_count` reads of the compressed-size table. */
  method ReadChunkSizes(c: Cursor, count: nat) returns (r: Result<seq<nat>>)
    requires c.pos == HEADER_SIZE <= |c.data|
    modifies c
    ensures r == ChunkSizes(c.data, count)
    ensures r.Ok? ==> c.pos == HEADER_SIZE + 4 * count
  {
    var sizes: seq<nat> := [];
    for i := 0 to count
      invariant c.pos == HEADER_SIZE + 4 * i <= |c.data|
      invariant sizes == seq(i, j requires 0 <= j < i => LeU32(c.data, HEADER_SIZE + 4 * j))
    {
      var size :- c.ReadU32();
      sizes := sizes + [size];
    }
    return Ok(sizes);
  }

  // ---------------------------------------------------------------------
  // The output buffer and the chunk loop.

  /** The largest capacity a `Vec<u8>` may reserve on a 64-bit target. */
  const ISIZE_MAX: nat := 0x7FFF_FFFF_FFFF_FFFF

  /** A growable byte buffer (`Vec<u8>`): its bytes and the capacity it has reserved. */
  class ByteVec {
    var bytes: seq<u8>
    var capacity: nat

    /**
     * `Vec::with_capacity(n)`: an empty buffer that has reserved at least
     * `n` bytes, and nothing when `n` is 0. Asking for more than `isize::MAX`
     * bytes aborts, so callers check the size first.
     */
    constructor WithCapacity(n: nat)
      requires n <= ISIZE_MAX
      ensures bytes == [] && capacity >= n
      ensures n == 0 ==> capacity == 0
    {
      bytes := [];
      capacity := n;
    }

    /** `write`: appends every byte, growing the capacity when it is exceeded. */
    method Write(b: seq<u8>)
      modifies this
      ensures bytes == old(bytes) + b
      ensures capacity == if |bytes| > old(capacity) then |bytes| else old(capacity)
    {
      bytes := bytes + b;
      if |bytes| > capacity {
        capacity := |bytes|;
      }
    }
  }

  /**
   * The chunk loop of `unpack`: each chunk's compressed bytes are cut out at
   * the running offset, decompressed into a buffer of
   * `min(bytes_to_read, chunk_unpacked_size)` bytes and appended to `dst`.
   */
  method WriteChunks(src: seq<u8>, h: Header, sizes: seq<nat>, codec: Codec, probe: bool, dst: ByteVec)
    returns (r: Result<()>)
    modifies dst
    ensures match Reassemble(src, h, sizes, |sizes|, codec, probe)
      case Ok(out) => r == Ok(()) && dst.bytes == old(dst.bytes) + out
      case Err(f) => r == Err(f)
  {
    var U, C := h.uncompressedSize, h.chunkUnpackedSize;
    var offset := HEADER_SIZE + 4 * |sizes|;
    var toRead := U;
    ghost var out: seq<u8> := [];
    if |sizes| > 0 {
      ChunkOffsetStep(sizes, 0);
    }
    for i := 0 to |sizes|
      invariant offset == ChunkOffset(sizes, i)
      invariant toRead == Remaining(U, C, i)
      invariant Reassemble(src, h, sizes, i, codec, probe) == Ok(out)
      invariant dst.bytes == old(dst.bytes) + out
    {
      ChunkOffsetStep(sizes, i);
      if offset + sizes[i] > |src| {
        ReassembleStopsAtFailure(src, h, sizes, i, |sizes|, codec, probe);
        return Err(SliceOutOfRange);
      }
      var chunk := src[offset..offset + sizes[i]];
      var dstSize := Min(toRead, C);
      var d := codec(chunk, dstSize);
      if probe && d.status < 0 && sizes[i] < 2 {
        ReassembleStopsAtFailure(src, h, sizes, i, |sizes|, codec, probe);
        return Err(SliceOutOfRange);
      }
      assert ChunkAt(src, h, sizes, i, codec, probe) == Ok(d.bytes);
      ReassembleSnoc(src, h, sizes, i, codec, probe, out);
      dst.Write(d.bytes);
      out := out + d.bytes;
      if toRead > C {
        toRead := toRead - C;
      }
      offset := offset + sizes[i];
    }
    return Ok(());
  }

  // ---------------------------------------------------------------------
  // Facts about the chunk plan.

  /** Once `bytes_to_read` is at most the per-chunk size it never changes again. */
  lemma {:induction false} RemainingSettles(total: nat, chunk: nat, i: nat, j: nat)
    requires i <= j && Remaining(total, chunk, i) <= chunk
    ensures Remaining(total, chunk, j) == Remaining(total, chunk, i)
    decreases j - i
  {
    if i < j {
      RemainingSettles(total, chunk, i, j - 1);
    }
  }

  /** While whole chunks still fit below the total, `bytes_to_read` is the total minus what was produced. */
  lemma {:induction false} RemainingBeforeEnd(total: nat, chunk: nat, i: nat)
    requires chunk > 0 && i * chunk < total
    ensures Remaining(total, chunk, i) == total - i * chunk
  {
    if i > 0 {
      assert i * chunk == (i - 1) * chunk + chunk;
      RemainingBeforeEnd(total, chunk, i - 1);
    }
  }

  /** `n` is `ceil(total / chunk)`, the chunk count a well-formed header carries. */
  predicate IsChunkCount(n: nat, total: nat, chunk: nat) {
    chunk > 0 && total <= n * chunk && (n == 0 || (n - 1) * chunk < total)
  }

  /** Every chunk before the end produces a full chunk, so `n` chunks produce `min(total, n * chunk)` bytes. */
  lemma {:induction false} TotalLenUpToEnd(total: nat, chunk: nat, n: nat)
    requires chunk > 0 && (n == 0 || (n - 1) * chunk < total)
    ensures TotalLen(total, chunk, n) == Min(total, n * chunk)
  {
    if n > 0 {
      var k := n - 1;
      assert n * chunk == k * chunk + chunk;
      if k > 0 {
        assert (k - 1) * chunk == k * chunk - chunk;
      }
      TotalLenUpToEnd(total, chunk, k);
      RemainingBeforeEnd(total, chunk, k);
    }
  }

  /** With the chunk count of a well-formed header, the chunks produce exactly the uncompressed size. */
  lemma TotalLenIsTotal(total: nat, chunk: nat, n: nat)
    requires IsChunkCount(n, total, chunk)
    ensures TotalLen(total, chunk, n) == total
  {
    TotalLenUpToEnd(total, chunk, n);
  }

  /**
   * A chunk past the last one a well-formed header needs does not produce
   * nothing: it repeats the length of the last needed chunk.
   */
  lemma ExtraChunkRepeatsLast(total: nat, chunk: nat, n: nat, j: nat)
    requires IsChunkCount(n, total, chunk) && n > 0 && j >= n
    ensures ChunkLen(total, chunk, j) == ChunkLen(total, chunk, n - 1) > 0
  {
    RemainingBeforeEnd(total, chunk, n - 1);
    assert n * chunk == (n - 1) * chunk + chunk;
    RemainingSettles(total, chunk, n - 1, j);
  }

  /** The compressed offset advances by the chunk's compressed size, not its decompressed size. */
  lemma ChunkOffsetStep(sizes: seq<nat>, i: nat)
    requires i < |sizes|
    ensures ChunkOffset(sizes, 0) == HEADER_SIZE + 4 * |sizes|
    ensures ChunkOffset(sizes, i + 1) == ChunkOffset(sizes, i) + sizes[i]
  {
    assert sizes[..0] == [];
    assert sizes[..i + 1][..i] == sizes[..i];
  }

  /** After a failing chunk nothing more is appended: the whole reassembly fails with it. */
  lemma {:induction false} ReassembleStopsAtFailure(src: seq<u8>, h: Header, sizes: seq<nat>, i: nat, n: nat, codec: Codec, probe: bool)
    requires i < n <= |sizes|
    requires Reassemble(src, h, sizes, i, codec, probe).Ok?
    requires ChunkAt(src, h, sizes, i, codec, probe).Err?
    ensures Reassemble(src, h, sizes, n, codec, probe) == Err(ChunkAt(src, h, sizes, i, codec, probe).failure)
  {
    if n > i + 1 {
      ReassembleStopsAtFailure(src, h, sizes, i, n - 1, codec, probe);
    }
  }

  /**
   * Reading the first two bytes of a failing chunk only ever adds a
   * failure: whatever the probing unpacker produces, the other one produces
   * too.
   */
  lemma {:induction false} ProbeOnlyFails(src: seq<u8>, h: Header, sizes: seq<nat>, n: nat, codec: Codec)
    requires n <= |sizes|
    requires Reassemble(src, h, sizes, n, codec, true).Ok?
    ensures Reassemble(src, h, sizes, n, codec, false) == Reassemble(src, h, sizes, n, codec, true)
  {
    if n > 0 {
      ProbeOnlyFails(src, h, sizes, n - 1, codec);
    }
  }

  /** The same for the whole container. */
  lemma ExpandProbeOnlyFails(src: seq<u8>, codec: Codec)
    requires Expand(src, codec, true).Ok?
    ensures Expand(src, codec, false) == Expand(src, codec, true)
  {
    var h := ParseHeader(src).value;
    var sizes := ChunkSizes(src, h.chunkCount).value;
    ProbeOnlyFails(src, h, sizes, |sizes|, codec);
  }

  /** With a codec that fills its destination, `n` chunks produce `TotalLen` bytes. */
  lemma {:induction false} ReassembleLength(src: seq<u8>, h: Header, sizes: seq<nat>, n: nat, codec: Codec, probe: bool)
    requires FillsDestination(codec) && n <= |sizes|
    requires Reassemble(src, h, sizes, n, codec, probe).Ok?
    ensures |Reassemble(src, h, sizes, n, codec, probe).value| == TotalLen(h.uncompressedSize, h.chunkUnpackedSize, n)
  {
    if n > 0 {
      ReassembleLength(src, h, sizes, n - 1, codec, probe);
    }
  }

  /**
   * Chunk `i`'s output sits in the result right after the outputs of
   * chunks `0..i`: chunks are appended in index order.
   */
  lemma {:induction false} ChunkPlacement(src: seq<u8>, h: Header, sizes: seq<nat>, n: nat, i: nat, codec: Codec, probe: bool)
    requires FillsDestination(codec) && i < n <= |sizes|
    requires Reassemble(src, h, sizes, n, codec, probe).Ok?
    ensures ChunkAt(src, h, sizes, i, codec, probe).Ok?
    ensures var out := Reassemble(src, h, sizes, n, codec, probe).value;
      var U, C := h.uncompressedSize, h.chunkUnpackedSize;
      TotalLen(U, C, i + 1) <= |out| &&
      out[TotalLen(U, C, i)..TotalLen(U, C, i + 1)] == ChunkAt(src, h, sizes, i, codec, probe).value
  {
    var U, C := h.uncompressedSize, h.chunkUnpackedSize;
    ReassembleStep(src, h, sizes, n, codec, probe);
    var prefix := Reassemble(src, h, sizes, n - 1, codec, probe).value;
    var last := ChunkAt(src, h, sizes, n - 1, codec, probe).value;
    ReassembleLength(src, h, sizes, n - 1, codec, probe);
    if i < n - 1 {
      ChunkPlacement(src, h, sizes, n - 1, i, codec, probe);
      SliceOfPrefix(prefix, last, TotalLen(U, C, i), TotalLen(U, C, i + 1));
    } else {
      ChunkAtLength(src, h, sizes, i, codec, probe);
      SliceOfPrefix(prefix, last, |prefix|, |prefix| + |last|);
    }
  }

  /** A successful reassembly of `n` chunks is that of `n - 1` chunks followed by chunk `n - 1`. */
  lemma ReassembleStep(src: seq<u8>, h: Header, sizes: seq<nat>, n: nat, codec: Codec, probe: bool)
    requires 0 < n <= |sizes|
    requires Reassemble(src, h, sizes, n, codec, probe).Ok?
    ensures Reassemble(src, h, sizes, n - 1, codec, probe).Ok?
    ensures ChunkAt(src, h, sizes, n - 1, codec, probe).Ok?
    ensures Reassemble(src, h, sizes, n, codec, probe).value
         == Reassemble(src, h, sizes, n - 1, codec, probe).value + ChunkAt(src, h, sizes, n - 1, codec, probe).value
  {
  }

  /** A chunk that decompresses is appended to what the chunks before it produced. */
  lemma ReassembleSnoc(src: seq<u8>, h: Header, sizes: seq<nat>, i: nat, codec: Codec, probe: bool, out: seq<u8>)
    requires i < |sizes| && Reassemble(src, h, sizes, i, codec, probe) == Ok(out)
    requires ChunkAt(src, h, sizes, i, codec, probe).Ok?
    ensures Reassemble(src, h, sizes, i + 1, codec, probe) == Ok(out + ChunkAt(src, h, sizes, i, codec, probe).value)
  {
  }

  /** With a codec that fills its destination, chunk `i` produces `ChunkLen` bytes. */
  lemma ChunkAtLength(src: seq<u8>, h: Header, sizes: seq<nat>, i: nat, codec: Codec, probe: bool)
    requires FillsDestination(codec) && i < |sizes|
    requires ChunkAt(src, h, sizes, i, codec, probe).Ok?
    ensures |ChunkAt(src, h, sizes, i, codec, probe).value| == ChunkLen(h.uncompressedSize, h.chunkUnpackedSize, i)
  {
  }

  /** A slice of `a + b` that lies within `a`, or is exactly `b`, is read off `a` or `b`. */
  lemma SliceOfPrefix(a: seq<u8>, b: seq<u8>, lo: nat, hi: nat)
    requires lo <= hi <= |a| + |b|
    ensures hi <= |a| ==> (a + b)[lo..hi] == a[lo..hi]
    ensures lo == |a| && hi == |a| + |b| ==> (a + b)[lo..hi] == b
  {
    if hi <= |a| {
      assert (a + b)[lo..hi] == a[lo..hi];
    }
    if lo == |a| && hi == |a| + |b| {
      assert (a + b)[lo..hi] == b;
    }
  }

  /** With a well-formed chunk count and a codec that fills its destination, the output is exactly the uncompressed size. */
  lemma ExpandLength(src: seq<u8>, codec: Codec, probe: bool)
    requires FillsDestination(codec)
    requires ParseHeader(src).Ok?
    requires var h := ParseHeader(src).value; IsChunkCount(h.chunkCount, h.uncompressedSize, h.chunkUnpackedSize)
    requires Expand(src, codec, probe).Ok?
    ensures |Expand(src, codec, probe).value| == ParseHeader(src).value.uncompressedSize
  {
    var h := ParseHeader(src).value;
    var sizes := ChunkSizes(src, h.chunkCount).value;
    ReassembleLength(src, h, sizes, |sizes|, codec, probe);
    TotalLenIsTotal(h.uncompressedSize, h.chunkUnpackedSize, h.chunkCount);
  }

  /** A chunk whose codec status is negative is appended all the same (unless its failure branch reads past it). */
  lemma FailedChunkIsAppended(src: seq<u8>, h: Header, sizes: seq<nat>, i: nat, codec: Codec, probe: bool)
    requires i < |sizes| && ChunkOffset(sizes, i) + sizes[i] <= |src|
    requires var offset := ChunkOffset(sizes, i);
      codec(src[offset..offset + sizes[i]], ChunkLen(h.uncompressedSize, h.chunkUnpackedSize, i)).status < 0
    requires !probe || sizes[i] >= 2
    ensures ChunkAt(src, h, sizes, i, codec, probe).Ok?
  {
  }

  /** A stand-in codec that echoes its input, cut or zero-padded to the destination size. */
  function EchoPadded(src: seq<u8>, n: nat): (d: Decoded)
    ensures |d.bytes| == n
  {
    Decoded(if |src| >= n then src[..n] else src + Zeros(n - |src|), 0)
  }

  /**
   * One chunk of 5 compressed bytes that must decompress to 10: the output
   * is the 10 bytes the codec wrote, here the input followed by five zeros.
   */
  lemma SingleChunkExample(payload: seq<u8>)
    requires |payload| == 5
    ensures var h := Header(10, 1, 10);
      Expand(HeaderBytes(h) + U32Bytes(5) + payload, EchoPadded, false) == Ok(payload + Zeros(5))
  {
    var h := Header(10, 1, 10);
    var src := HeaderBytes(h) + U32Bytes(5) + payload;
    ParseHeaderBytes(h, U32Bytes(5) + payload);
    assert src == HeaderBytes(h) + (U32Bytes(5) + payload);
    LeU32OfBytes(HeaderBytes(h), 5, payload);
    var sizes := ChunkSizes(src, 1).value;
    assert sizes == [5];
    ChunkOffsetStep(sizes, 0);
    var head := HeaderBytes(h) + U32Bytes(5);
    assert src == head + payload && |head| == 64;
    assert src[64..69] == payload;
    assert ChunkLen(10, 10, 0) == 10;
    assert EchoPadded(payload, 10).bytes == payload + Zeros(5);
    assert ChunkAt(src, h, sizes, 0, EchoPadded, false) == Ok(payload + Zeros(5));
    assert [] + (payload + Zeros(5)) == payload + Zeros(5);
    assert Reassemble(src, h, sizes, 1, EchoPadded, false) == Ok(payload + Zeros(5));
    assert Expand(src, EchoPadded, false) == Reassemble(src, h, sizes, 1, EchoPadded, false);
  }
}
