# poe-bundle-reader, modelled in Dafny

poe-bundle-reader reads the content index of a Path of Exile install. Its files:

- The index file `Bundles2/_.index.bin` and every `*.bundle.bin` are bundles.
- A bundle is a chunked container: a 60-byte little-endian header, a table of per-chunk compressed sizes, then the compressed chunks. The native Oodle codec decompresses each chunk.
- The unpacked index holds three tables: bundles, files keyed by a 64-bit path hash, and path reps.
- After the tables comes a second container. It holds the path table, a run of u32 indexes and NUL-terminated UTF-8 suffixes. A small state machine with a "generation phase" and a palette turns it into the list of logical paths.

Two front ends read all of this:

- `src/reader.rs` has `unpack` into a caller's buffer, `build_index`, `build_paths`, `get`, `size_of` and `write_into`.
- `src/lib.rs` has a callback-style `unpack`, `read_index_headers` and `read_index`.
- `src/util.rs` holds the path hash: FNV-1a over the lower-cased path salted with `++`.

The modules of the model:

| module | file | what it holds |
|---|---|---|
| `Wire` | wire.dfy | Bytes, little-endian integers and their encoders. `Failure` and `Result`: each `.unwrap()` or slice that can panic becomes an `Err`. |
| `Utf8` | utf8.dfy | Well-formed UTF-8 as `str::from_utf8` accepts it (table 3-7 of the Unicode Standard), recognised one byte at a time. |
| `Util` | util.dfy | FNV-1a with 64-bit wrap-around; `filepath_hash`. |
| `Cursors` | cursor.dfy | The `Cursor` class (`read_u8`, `read_u32`, `read_u64`, `set_position`) and `read_utf8`. |
| `Container` | container.dfy | The bundle header, the size table, the chunk plan (`bytes_to_read`, `min`, the running offset), the `Vec<u8>` buffer and the chunk loop. |
| `IndexTables` | index_tables.dfy | The three tables and their record readers, as each front end reads them. |
| `PathTable` | path_table.dfy | The path-table records, the decoder state machine, the `build_paths` loop, and an encoder whose output decodes back. |
| `Reader` | reader.dfy | `src/reader.rs`: `unpack`, `read_index`, `build_index`, `get`, `size_of`, `write_into`. |
| `Lib` | lib.dfy | `src/lib.rs`: `unpack`, `read_index_headers`, `read_index`. |
| `Agreement` | agreement.dfy | Where both front ends succeed on the same index, they yield the same paths and the same file table. |

How the model maps the code:

- Code that works step by step is modelled as methods over a `Cursor` object. This covers the unpack loops, the table reads, `build_paths` and `read_utf8`.
- Each such method is proved equal to a function: `Reader.Unpacked`, `Lib.Unpacked`, `ReaderTables`, `LibTables`, `Decode` or `CString`.
- The properties are proved about those functions.
- Both `unpack` functions are modelled. They differ in three ways:
  - reader.rs returns early with the size when the buffer is too small;
  - reader.rs's callers reserve the output buffer before the size table is read, lib.rs after it. `Vec::with_capacity` aborts above `isize::MAX` bytes, so an oversized header fails at a different point in each (`Agreement.OversizeOrder`);
  - lib.rs's failure message reads `src[0]` and `src[1]`, so a failing chunk shorter than two bytes panics there. The flag `probe` of `Container.ChunkAt` models this.

Behaviour of the code that is easy to miss, which the model follows:

- `bytes_to_read` is only decreased while it is strictly larger than the chunk size. A chunk past the last one needed therefore decompresses to the last chunk's size again, not to nothing (`Container.ExtraChunkRepeatsLast`).
- A negative codec status is only logged. The chunk's buffer is appended all the same (`Container.FailedChunkIsAppended`).
- Two index-0 records in a row empty the palette (`PathTable.DoubleToggle`).
- `write_into` panics on a path with no entry (the final `unwrap`); it does not return an error (`Reader.FileBytes`, `NoSuchFile`).
- `build_index` skips the path reps as `20 * count` bytes without reading them. It is proved to land where `read_index_headers` finishes parsing them (`IndexTables.ReaderSkipAgrees`).

## Model

| member | source | states |
|---|---|---|
| `Util.HashFnv1a` | src/util.rs:2-12 | The loop returns `Fnv1a(data)`: starting from the offset basis, each byte is XORed into the hash, which is then multiplied by the FNV prime modulo 2^64. The empty input hashes to the offset basis. |
| `Util.FoldAppend` | src/util.rs:7-10 | The hash is a left fold: the hash of `a + b` continues from the hash state after `a`. |
| `Util.AsciiLower` | src/util.rs:15 | Lower-casing keeps the length and leaves no upper-case ASCII letter. An upper-case letter becomes the letter 32 above it, and every other byte is kept. |
| `Util.AsciiLowerIdempotent` | src/util.rs:15 | Lower-casing twice is lower-casing once. |
| `Util.FilepathHash` | src/util.rs:14-17 | The key of a path is the FNV-1a state of the lower-cased path, continued over the two salt bytes `+` `+`. |
| `Util.FilepathHashIgnoresCase` | src/util.rs:14-17 | Two paths with the same lower-cased form have the same key. |
| `Util.FilepathHashOfLowered` | src/util.rs:14-17 | A path and its lower-cased form have the same key. |
| `Util.ModsDatLowered` | src/util.rs:15 | "Data/Mods.dat" lower-cases to "data/mods.dat". |
| `Util.ModsDatKeyIgnoresCase` | src/util.rs:14-17 | "Data/Mods.dat" and "data/mods.dat" have the same key. |
| `Wire.LeU32OfBytes` | src/reader.rs:156 | A little-endian u32 read at the position of an encoded value gives the value back, whatever surrounds it. |
| `Wire.LeU64OfBytes` | src/reader.rs:162 | The same for a little-endian u64. |
| `Utf8.ScanAppend` | src/reader.rs:305 | Recognising `a + b` continues from the state the recogniser reached after `a`. |
| `Utf8.AsciiIsValid` | src/reader.rs:305 | Every ASCII byte string is accepted as UTF-8. |
| `Utf8.ValidConcat` | src/reader.rs:288 | Two accepted strings concatenated are accepted, so a palette entry followed by a suffix is a valid path. |
| `Cursors.Cursor.constructor` | src/reader.rs:211 | A new cursor is at position 0 over the given bytes. |
| `Cursors.Cursor.ReadU8` | src/reader.rs:218 | Reading one byte returns the byte at the position and advances by one. At or past the end it fails and does not move. |
| `Cursors.Cursor.ReadU32` | src/reader.rs:212 | Reading a little-endian u32 returns it and advances by four. With fewer than four bytes left it fails and does not move. |
| `Cursors.Cursor.ReadU64` | src/reader.rs:235 | The same for a u64: eight bytes, or a failure. |
| `Cursors.Cursor.ReadBytes` | src/reader.rs:217-219 | `n` single-byte reads return the next `n` bytes and advance by `n`. They fail if the bytes run out, and zero reads return nothing. |
| `Cursors.Cursor.SetPosition` | src/reader.rs:252 | Any position can be set, even one past the end. |
| `Cursors.U32At` | src/lib.rs:155 | A u32 read at `p` succeeds exactly when four bytes remain. The value is below 2^32, and the only failure is running out of bytes. |
| `Cursors.U64At` | src/lib.rs:177 | A u64 read at `p` succeeds exactly when eight bytes remain. The value is below 2^64. |
| `Cursors.NulFrom` | src/reader.rs:301-304 | Finds the first NUL at or after `from`: no byte before it is NUL. The result is none exactly when no NUL follows. |
| `Cursors.CString` | src/reader.rs:300-306 | A successful string read ends past its start and within the data, and its bytes are well-formed UTF-8. The only failures are end of stream and invalid UTF-8. |
| `Cursors.CStringShape` | src/reader.rs:300-306 | A read string is the NUL-free, well-formed UTF-8 bytes up to the first NUL, and the position after the read is just past that NUL. It runs out of bytes exactly when no NUL follows. |
| `Cursors.CStringOfText` | src/lib.rs:66-72 | A NUL-free UTF-8 text stored at `from` and followed by a NUL reads back as itself, with the position just past the NUL. |
| `Cursors.ReadUtf8` | src/reader.rs:300-306 | The byte loop of `read_utf8` returns what `CString` describes and leaves the cursor just past the NUL. It fails with end of stream when no NUL follows, and with invalid UTF-8 otherwise. |
| `Container.ParseHeader` | src/reader.rs:156-169 | The header reads succeed exactly when 60 bytes are present. They yield the u64 uncompressed size, the u32 chunk count and the u32 per-chunk size, and the only failure is end of stream. |
| `Container.ParseHeaderBytes` | src/reader.rs:156-169 | Parsing an encoded header returns that header, whatever follows it. |
| `Container.ParseHeaderIgnoresDroppedFields` | src/lib.rs:80-93 | Only bytes 20..28 and 36..44 of the header matter; the eleven dropped fields do not change the result. |
| `Container.ChunkSizes` | src/reader.rs:175-178 | The size table is read exactly when `4 * chunk_count` bytes follow the header. It has `chunk_count` entries, and entry `i` is the u32 at byte `60 + 4 * i`. |
| `Container.ReadHeader` | src/lib.rs:78-93 | The fifteen cursor reads give `ParseHeader` of the data and leave the cursor at byte 60. |
| `Container.ReadChunkSizes` | src/lib.rs:95-98 | The `chunk_count` cursor reads give `ChunkSizes` and leave the cursor after the table. |
| `Container.ByteVec.WithCapacity` | src/reader.rs:140 | A new buffer is empty and has reserved at least the requested capacity, and nothing when 0 is requested. A request above `isize::MAX` is refused, so callers check the size first. |
| `Container.ByteVec.Write` | src/reader.rs:199 | Writing appends all the bytes. The capacity grows to the length when the length exceeds it. |
| `Container.WriteChunks` | src/reader.rs:180-205 | The chunk loop appends exactly `Reassemble` of all chunks to the buffer, or fails as `Reassemble` fails. The invariants tie the running offset, `bytes_to_read` and the output to the chunk plan. |
| `Container.RemainingSettles` | src/reader.rs:201-203 | Once `bytes_to_read` is at most the chunk size it never changes again. |
| `Container.RemainingBeforeEnd` | src/reader.rs:181-203 | While `i` whole chunks stay below the total, `bytes_to_read` is the total minus `i` chunk sizes. |
| `Container.TotalLenUpToEnd` | src/reader.rs:183-205 | The chunks up to the end produce `min(total, n * chunk)` bytes. |
| `Container.TotalLenIsTotal` | src/reader.rs:183-205 | With `chunk_count = ceil(total / chunk)`, the chunks produce exactly the uncompressed size. |
| `Container.ExtraChunkRepeatsLast` | src/reader.rs:185-203 | A chunk past the needed count decompresses to the last needed chunk's size, which is not zero. |
| `Container.ChunkOffsetStep` | src/reader.rs:180-204 | The first chunk starts after the header and the size table. Each later offset advances by the previous chunk's compressed size. |
| `Container.ReassembleStopsAtFailure` | src/reader.rs:183-205 | After a failing chunk the whole unpack fails with that chunk's failure. |
| `Container.ProbeOnlyFails` | src/lib.rs:110-113 | Reading a failing chunk's first two bytes only adds failures: where the probing unpack succeeds, the other gives the same bytes. |
| `Container.ExpandProbeOnlyFails` | src/lib.rs:104-120 | The same for the whole container. |
| `Container.ReassembleLength` | src/reader.rs:185-199 | With a codec that fills its destination, `n` chunks produce `TotalLen` bytes. |
| `Container.ChunkPlacement` | src/reader.rs:183-205 | Chunk `i`'s output sits in the result right after the outputs of chunks `0..i`. |
| `Container.ChunkAtLength` | src/reader.rs:185-193 | With a codec that fills its destination, chunk `i` produces `min(bytes_to_read, chunk_unpacked_size)` bytes. |
| `Container.ExpandLength` | src/reader.rs:153-207 | With a well-formed chunk count and a codec that fills its destination, the unpacked output is exactly the header's uncompressed size. |
| `Container.FailedChunkIsAppended` | src/reader.rs:195-199 | A negative codec status does not stop the chunk from being appended. |
| `Container.SingleChunkExample` | src/reader.rs:153-207 | A concrete one-chunk bundle (5 compressed bytes, 10 expected) unpacks to the 10 bytes the codec wrote. |
| `Container.Reassemble` | src/reader.rs:183-205 | A chunk loop can only fail by slicing a chunk past the end of the data. |
| `Container.Expand` | src/reader.rs:156-205 | Decompression runs out of bytes exactly when the header or the size table does not fit. Its only other failure is a chunk sliced past the end. |
| `PathTable.Records` | src/reader.rs:273-294 | Parsing stops, with no further records, as soon as fewer than four bytes remain. Every entry's suffix is well-formed UTF-8, and a failure is end of stream or invalid UTF-8. |
| `PathTable.Decode` | src/reader.rs:265-298 | A blob shorter than four bytes decodes to no paths. A failure is end of stream or invalid UTF-8, and every decoded path is well-formed UTF-8, as the `String`s of `build_paths` are. |
| `PathTable.RunKeepsUtf8` | src/reader.rs:283-294 | Records whose suffixes are UTF-8 keep every palette entry and every path UTF-8. |
| `PathTable.BuildPaths` | src/reader.rs:265-298 | The `build_paths` loop returns `Decode(bytes)`: the records parsed from the blob, run through the phase/palette/output state machine. The loop invariant keeps the cursor, the records read so far and the state in step. |
| `PathTable.RunAppend` | src/reader.rs:273-295 | Decoding is a left fold: the records after a prefix continue from the prefix's state. |
| `PathTable.DoubleToggle` | src/reader.rs:276-281 | Two zeros in a row leave the phase and the output unchanged and empty the palette. |
| `PathTable.EntryRouting` | src/reader.rs:283-294 | An entry builds `table[index - 1] + suffix` when that palette entry exists, and the bare suffix otherwise. It goes to the palette during generation and to the output otherwise, and the phase is kept. |
| `PathTable.OutputPhase` | src/reader.rs:283-294 | Outside generation, a run of entries keeps the palette and emits one path per entry, each built against that palette. |
| `PathTable.FilesOnlyGrow` | src/reader.rs:289-293 | The output only grows: paths already emitted stay, in order. |
| `PathTable.EncodeRecord` | src/reader.rs:274-284 | A record's bytes take its width: 4 for a toggle, or 5 plus the suffix length for an entry. |
| `PathTable.RecordReadsBack` | src/reader.rs:274-284 | A stored record reads back its index. An entry also reads back its suffix, up to the NUL and past it. |
| `PathTable.RecordStep` | src/reader.rs:273-294 | The parser reads a stored record and continues right after it. |
| `PathTable.RecordsOfStored` | src/reader.rs:273-295 | Records stored one after the other, followed by fewer than four bytes, parse back to themselves. |
| `PathTable.EncodingIsStored` | src/reader.rs:273-295 | The encoding of well-formed records, followed by fewer than four bytes, stores each record where the parser will look for it. |
| `PathTable.DecodeOfEncoding` | src/reader.rs:265-298 | Decoding the encoding of well-formed records, with up to three trailing bytes, gives the paths those records emit. |
| `PathTable.DecodeOfStored` | src/reader.rs:265-298 | A blob holding stored records decodes to the paths they emit. |
| `PathTable.ExampleRun` | src/reader.rs:276-294 | The records [0, 1 "dir", 0, 1 "name"] emit the single path "dir" + "name". |
| `PathTable.AsciiEntry` | src/reader.rs:284 | A NUL-free ASCII name with an index below 2^32 is a well-formed entry. |
| `PathTable.PaletteExample` | src/reader.rs:265-298 | The encoded blob [0, 1 `dir`, 0, 1 `name`] decodes to the single path `dir` + `name`, for any well-formed `dir` and `name`. |
| `PathTable.ModsDatPalette` | src/reader.rs:265-298 | The encoded blob [0, 1 "Data/", 0, 1 "Mods.dat"] decodes to the single path "Data/Mods.dat". |
| `IndexTables.Repeat` | src/reader.rs:214-230 | A successful run of `k` record reads yields `k` records. A failed run fails as one of its record reads does. |
| `IndexTables.BundleAt` | src/reader.rs:216-228 | A bundle record is a u32 name length, that many name bytes, and a u32 size. The name must be UTF-8, and the next record starts `8 + length` bytes later. A failure is end of stream or invalid UTF-8. |
| `IndexTables.ResolvedFileAt` | src/reader.rs:234-246 | A file record is 20 bytes: hash, bundle id, offset, size. The bundle is looked up before the offset is read, and a missing bundle fails with `UnknownBundle` once its id was read. Any other failure is end of stream. |
| `IndexTables.FileAt` | src/lib.rs:176-185 | A raw file record reads exactly when 20 bytes remain: hash, bundle id, offset, size. |
| `IndexTables.PathRepAt` | src/lib.rs:191-200 | A path-rep record reads exactly when 20 bytes remain: hash, then three u32. |
| `IndexTables.ReadBundle` | src/reader.rs:215-229 | The cursor reads of one bundle record give `BundleAt` and advance to its end. |
| `IndexTables.ReadBundles` | src/reader.rs:212-230 | The bundle table read through the cursor is the counted run of bundle records, keyed by position. |
| `IndexTables.ReadResolvedFile` | src/reader.rs:234-246 | The cursor reads of one file record give `ResolvedFileAt`. |
| `IndexTables.ReadResolvedFiles` | src/reader.rs:232-248 | The reader's file table is the counted run of resolved records collected into a map. A later hash replaces an earlier one. |
| `IndexTables.ReadReaderTables` | src/reader.rs:209-252 | The table part of `build_index` gives `ReaderTables`: the file map and the position after skipping `20 * count` bytes. |
| `IndexTables.ReadFile` | src/lib.rs:176-185 | The cursor reads of one raw file record give `FileAt`. |
| `IndexTables.ReadFiles` | src/lib.rs:174-187 | lib's file table is the counted run of raw records collected into a map. |
| `IndexTables.ReadPathRep` | src/lib.rs:191-200 | The cursor reads of one path rep give `PathRepAt`. |
| `IndexTables.ReadPathReps` | src/lib.rs:189-202 | lib's path-rep table is the counted run of path-rep records collected into a map. |
| `IndexTables.ReaderTables` | src/reader.rs:209-252 | Fewer than four bytes fail with end of stream. The reader's tables fail only with end of stream, invalid UTF-8 or an unknown bundle id. |
| `IndexTables.LibTables` | src/lib.rs:150-204 | Fewer than four bytes fail with end of stream. lib's tables fail only with end of stream or invalid UTF-8: a bundle id is never looked up. |
| `IndexTables.BundleMapSnoc` | src/reader.rs:214-230 | The next bundle is stored under the next position. |
| `IndexTables.TableSnoc` | src/reader.rs:233-248 | A record added to the end is stored over whatever its key held. |
| `IndexTables.RepeatStride` | src/lib.rs:189-202 | A run of `k` fixed-width records ends `w * k` bytes after it starts. |
| `IndexTables.RepeatFits` | src/lib.rs:189-202 | A run of fixed-width records that need only their bytes succeeds exactly when `w * k` bytes are there. |
| `IndexTables.RepeatStopsAtFailure` | src/reader.rs:214-230 | After a failing record the whole run fails with that failure. |
| `IndexTables.FixedWidthRecords` | src/lib.rs:175-202 | File and path-rep records are 20 bytes wide and read exactly when 20 bytes remain. |
| `IndexTables.ResolvedWidth` | src/reader.rs:233-248 | A resolved file record is 20 bytes wide, whatever the bundle table. |
| `IndexTables.TableKeys` | src/reader.rs:233-248 | A hash is in the file map exactly when some record carries it. |
| `IndexTables.TableLastWins` | src/reader.rs:233-248 | The map holds, for each hash, the last record that carries it. |
| `IndexTables.ResolvedIsLookedUp` | src/reader.rs:234-246 | A resolved record is the raw record with its bundle id replaced by the bundle's name and size. |
| `IndexTables.ResolvedRun` | src/reader.rs:232-248 | Where the reader's resolved run succeeds, lib's raw run over the same bytes succeeds too and ends at the same place. The reader's map is lib's map resolved against the bundles. |
| `IndexTables.CountedStride` | src/reader.rs:250-252 | A counted table of `w`-byte records ends `4 + w * count` bytes after its count. |
| `IndexTables.LibTablesLayout` | src/lib.rs:204 | The tables end inside the data, so slicing off the remainder cannot fail. |
| `IndexTables.LibTablesEnd` | src/lib.rs:174-204 | lib's tables end at `filesEnd + 4 + 20 * pathRepCount`, and that position is within the data. |
| `IndexTables.ResolvedFilesEnd` | src/reader.rs:232-252 | The reader's skip position is `filesEnd + 4 + 20 * pathRepCount`. |
| `IndexTables.ReaderSkipAgrees` | src/reader.rs:250-254 | The reader's 20-byte skip lands exactly where lib finishes parsing the path reps. |
| `IndexTables.ReaderFiles` | src/reader.rs:232-248 | The reader's file map is the run of resolved records after the bundle table. |
| `IndexTables.LibFiles` | src/lib.rs:157-187 | lib's bundle map is the bundle table, and its file map is the run of raw records after it. |
| `Reader.Unpack` | src/reader.rs:153-207 | The header is read first. A buffer with less capacity than the uncompressed size is left untouched, and the size is returned. Otherwise every chunk is appended and 0 is returned. |
| `Reader.Unpacked` | src/reader.rs:138-141 | A header whose uncompressed size is above `isize::MAX` fails with a capacity overflow. Otherwise the result succeeds exactly when decompression does, and is the decompressed container. |
| `Reader.UnpackAll` | src/reader.rs:138-141 | The sizing call followed by the real call gives `Unpacked`: the sizing call returns the header's size, and a size above `isize::MAX` aborts at the reservation. |
| `Reader.BuildIndex` | src/reader.rs:209-263 | `build_index` gives `IndexOf`: the resolved file table, and the paths decoded from the container after the skip. A skip past the end fails. |
| `Reader.IndexOf` | src/reader.rs:209-263 | A built index holds the reader's resolved file table. A skip that lands past the end of the data fails with an out-of-range slice, and every path is well-formed UTF-8. |
| `Reader.ReadIndex` | src/reader.rs:138-143 | `read_index` unpacks the index file and builds the index from it. |
| `Reader.ReadIndexOf` | src/reader.rs:138-143 | A failed unpack of the index file fails the whole read with the same failure. A read index comes from unpacked bytes whose tables parse, and its paths are well-formed UTF-8. |
| `Reader.BundlePath` | src/reader.rs:86 | The bundle's path is "Bundles2/" + name + ".bundle.bin", piece by piece. |
| `Reader.WriteInto` | src/reader.rs:82-121 | Writes exactly the file's bytes, cut out of its unpacked bundle at its offset, and returns their count. A missing entry, a failed fetch or a slice past the end writes nothing and fails. |
| `Reader.Get` | src/reader.rs:146-151 | A path finds a file exactly when its key is in the file map. The file found is the one stored under the key of the lower-cased path. |
| `Reader.SizeOf` | src/reader.rs:78-80 | `size_of` reports a size exactly when `get` finds a file, and the size is that file's stored size. |
| `Reader.FileBytes` | src/reader.rs:82-121 | A path with no entry fails with `NoSuchFile`. When the bytes are cut out they are exactly `size_of` bytes, and a failure is never a table-parsing failure. |
| `Reader.GetIgnoresCase` | src/reader.rs:146-151 | Paths with the same lower-cased form find the same file and the same size. |
| `Reader.GetFindsLastRecord` | src/reader.rs:146-151 | A path finds the last file record that carries its key, and `size_of` reports that record's size. |
| `Reader.GetMisses` | src/reader.rs:78-121 | A path whose key no record carries finds nothing, and `write_into` fails for it. |
| `Reader.FileBytesInRange` | src/reader.rs:89-96 | With a well-formed bundle and a codec that fills its destination, cutting the file out succeeds exactly when `offset + size` is at most the bundle's uncompressed size. |
| `Lib.Unpack` | src/lib.rs:74-123 | The callback receives `Unpacked` of the data. There is no capacity check, and the failure message's read of the first two bytes is included. |
| `Lib.Unpacked` | src/lib.rs:95-102 | When the header and the size table are present and the uncompressed size is above `isize::MAX`, the reservation fails with a capacity overflow. Otherwise the result succeeds exactly when decompression with the probing failure message does, and is the decompressed container. |
| `Lib.ReadIndexHeaders` | src/lib.rs:150-213 | The callback receives the three tables and the unpacked container after the last path rep. |
| `Lib.HeadersOf` | src/lib.rs:150-213 | Successful headers are lib's tables. The remainder is always sliced within the data, and the result succeeds exactly when that remainder unpacks. A failure is never a bundle lookup, missing-file or fetch failure. |
| `Lib.ReadIndex` | src/lib.rs:25-64 | The callback receives the index and the paths that the path loop decodes from the remainder. |
| `Lib.ReadIndexOf` | src/lib.rs:25-64 | A failed unpack of the index file fails the whole read with the same failure. A read index comes from unpacked bytes whose tables parse, and its paths are well-formed UTF-8. |
| `Agreement.TablesAgree` | src/reader.rs:232-248 | On the same index bytes, the reader's file table is lib's file table resolved against lib's bundle table. |
| `Agreement.RemaindersAgree` | src/reader.rs:250-261 | On the same index bytes, both front ends unpack the same container after the tables and decode the same paths. |
| `Agreement.ReaderAgreesWithLib` | src/lib.rs:25-64 | Where both `read_index` functions succeed on the same packed index, they yield the same paths. The reader's file table is lib's, resolved. |
| `Agreement.UnpackedAgree` | src/lib.rs:74-123 | Where lib's `unpack` succeeds, the reader's two `unpack` calls give the same bytes. |
| `Agreement.OversizeOrder` | src/reader.rs:139-140 | With an uncompressed size above `isize::MAX` and a size table cut short, the reader fails with a capacity overflow and lib with end of stream. |
| `Agreement.OversizedHeader` | src/lib.rs:102 | A header claiming 2^63 bytes and no chunks makes both unpack functions fail with a capacity overflow rather than return an empty buffer. |

## Left out

- The Oodle codec (`Ooz_Decompress`, a foreign C function) is a parameter `Codec`: it maps the compressed bytes and the destination size to the destination's bytes and a status. The lemmas that assume it fills its destination say so (`FillsDestination`).
- `BundleIndex::get_file`, `BundleReader::from_install`, `GGPK` and the file system are out of scope. `write_into` receives the bundle's bytes through a `Fetch` parameter, which stands for both the disk read and the GGPK mapping.
- Logging (`debug!`, `trace!`, `warn!`, `println!`) is not modelled. The one exception is lib.rs's `println!` reading `src[0]` and `src[1]`, which can panic and is modelled. reader.rs's `warn!` formats the same bytes only when warnings are enabled, so that read is not modelled.
- `read_index`, `read_index_headers` and lib's `unpack` take callbacks. The model returns what each callback would be given.
- `src/main.rs` and `build.rs` are not part of this model.
- Util.FilepathHash: only ASCII letters are lower-cased, while `String::to_lowercase` also lower-cases non-ASCII characters. The key of a path with non-ASCII upper-case letters is not modelled.
- Container.ByteVec.Write: capacity growth is modelled as growing to the new length. Vec's amortised doubling, allocation failure and the capacity overflow of a buffer grown past `isize::MAX` bytes are not modelled.
- Container.ByteVec.WithCapacity: only the `isize::MAX` limit is modelled. An allocator that cannot supply a smaller reservation aborts the process, and that is not modelled; `Reader.UnpackAll` and `Lib.Unpack` then succeed where the program would abort.
- Container.WriteChunks: `chunk_offset + chunk_sizes[index]` and `usize::try_from` are unbounded here. Overflow of those 64-bit additions on a hostile header is not modelled.
- IndexTables.ReaderTables: `c.position() + 20 * path_rep_count` is computed in u64. Its overflow is not modelled.
- PathTable.EncodeRecord: an entry's index is written as its low 32 bits. Only indexes below 2^32 are well formed and read back.
- Reader.WriteInto: the model writes into a `ByteVec`. `dst.write` on an arbitrary `Write` may write fewer bytes than it is given, and that is not modelled.
- The model assumes a 64-bit target, where `usize` is 64 bits wide and `isize::MAX` is 2^63 - 1. `uncompressed_size as usize` (reader.rs:171-172), `usize::try_from(uncompressed_size)` (lib.rs:102), `File::size as usize` and the other casts to `usize` are then lossless.
