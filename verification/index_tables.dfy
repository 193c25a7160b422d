/**
 * The tables at the head of the unpacked index file, as `build_index`
 * (src/reader.rs) and `read_index_headers` (src/lib.rs) read them:
 *
 *   u32 bundle count, then per bundle: u32 name length, the name, u32 size;
 *   u32 file count, then per file: u64 path hash, u32 bundle id, u32 offset, u32 size;
 *   u32 path-rep count, then per path rep: u64 hash and three u32;
 *   the rest of the bytes: a nested chunked container holding the path table.
 *
 * Each table is a run of records read one after the other; `Repeat` is that
 * run, given the function that reads one record.
 */
module IndexTables {
  import opened Wire
  import opened Cursors
  import Utf8

  /** Reads one record at a position: the record and the position after it. */
  type Step<T> = (seq<u8>, nat) -> Result<(T, nat)>

  /** `k` records read one after the other from `start`; the first failure stops the run. */
  function Repeat<T>(step: Step<T>, data: seq<u8>, start: nat, k: nat): (r: Result<(seq<T>, nat)>)
    ensures r.Ok? ==> |r.value.0| == k
    ensures r.Err? ==> exists p :: step(data, p) == Err(r.failure)
    decreases k
  {
    if k == 0 then Ok(([], start))
    else
      match Repeat(step, data, start, k - 1)
      case Err(f) => Err(f)
      case Ok((items, p)) =>
        match step(data, p)
        case Err(f) => Err(f)
        case Ok((x, q)) => Ok((items + [x], q))
  }

  // ---------------------------------------------------------------------
  // Records.

  datatype Bundle = Bundle(name: Text, uncompressedSize: nat)

  /** A file entry as src/reader.rs stores it: resolved against its bundle. */
  datatype BundledFile = BundledFile(bundlePath: Text, bundleUncompressedSize: nat, offset: nat, size: nat)

  /** A file entry as src/lib.rs stores it: the raw bundle id. */
  datatype File = File(bundleIndex: nat, offset: nat, size: nat)

  datatype PathRep = PathRep(payloadOffset: nat, payloadSize: nat, payloadRecursiveSize: nat)

  /**
   * One bundle record, in the order of the reads: the name length, the name
   * byte by byte, the size; only then is the name checked to be UTF-8.
   */
  function BundleAt(data: seq<u8>, p: nat): (r: Result<(Bundle, nat)>)
    ensures r.Ok? ==> var (b, next) := r.value;
      && next == p + 8 + |b.name| <= |data|
      && |b.name| == LeU32(data, p)
      && b.name == data[p + 4..p + 4 + |b.name|]
      && b.uncompressedSize == LeU32(data, p + 4 + |b.name|)
      && Utf8.Valid(b.name)
    ensures r.Err? ==> r.failure == EndOfStream || r.failure == InvalidUtf8
  {
    var len :- U32At(data, p);
    if p + 4 + len > |data| then Err(EndOfStream)
    else
      var size :- U32At(data, p + 4 + len);
      var name := data[p + 4..p + 4 + len];
      if Utf8.Valid(name) then Ok((Bundle(name, size), p + 8 + len)) else Err(InvalidUtf8)
  }

  /**
   * One file record of src/reader.rs: the hash and the bundle id are read,
   * the bundle is looked up (a miss fails before anything else is read),
   * then the offset and the size.
   */
  function ResolvedFileAt(bundles: map<nat, Bundle>, data: seq<u8>, p: nat): (r: Result<((nat, BundledFile), nat)>)
    ensures r.Ok? ==> var ((hash, file), next) := r.value;
      && next == p + 20 <= |data|
      && hash == LeU64(data, p)
      && var id := LeU32(data, p + 8);
      && id in bundles
      && file == BundledFile(bundles[id].name, bundles[id].uncompressedSize, LeU32(data, p + 12), LeU32(data, p + 16))
    ensures p + 12 <= |data| && LeU32(data, p + 8) !in bundles ==> r == Err(UnknownBundle)
    ensures r.Err? && r != Err(UnknownBundle) ==> r == Err(EndOfStream) && p + 20 > |data|
  {
    var hash :- U64At(data, p);
    var id :- U32At(data, p + 8);
    if id !in bundles then Err(UnknownBundle)
    else
      var offset :- U32At(data, p + 12);
      var size :- U32At(data, p + 16);
      Ok(((hash, BundledFile(bundles[id].name, bundles[id].uncompressedSize, offset, size)), p + 20))
  }

  function ResolvedFileStep(bundles: map<nat, Bundle>): Step<(nat, BundledFile)> {
    (data, p) => ResolvedFileAt(bundles, data, p)
  }

  /** One file record of src/lib.rs: hash, bundle id, offset and size, with no lookup. */
  function FileAt(data: seq<u8>, p: nat): (r: Result<((nat, File), nat)>)
    ensures r.Ok? <==> p + 20 <= |data|
    ensures r.Ok? ==> r.value == ((LeU64(data, p), File(LeU32(data, p + 8), LeU32(data, p + 12), LeU32(data, p + 16))), p + 20)
  {
    var hash :- U64At(data, p);
    var id :- U32At(data, p + 8);
    var offset :- U32At(data, p + 12);
    var size :- U32At(data, p + 16);
    Ok(((hash, File(id, offset, size)), p + 20))
  }

  /** One path-rep record: a hash and three u32. */
  function PathRepAt(data: seq<u8>, p: nat): (r: Result<((nat, PathRep), nat)>)
    ensures r.Ok? <==> p + 20 <= |data|
    ensures r.Ok? ==> r.value == ((LeU64(data, p), PathRep(LeU32(data, p + 8), LeU32(data, p + 12), LeU32(data, p + 16))), p + 20)
  {
    var hash :- U64At(data, p);
    var offset :- U32At(data, p + 8);
    var size :- U32At(data, p + 12);
    var recursive :- U32At(data, p + 16);
    Ok(((hash, PathRep(offset, size, recursive)), p + 20))
  }

  // ---------------------------------------------------------------------
  // Collecting records into maps.

  /** The bundles keyed by their position in the table. */
  function BundleMap(bundles: seq<Bundle>): map<nat, Bundle> {
    map i | 0 <= i < |bundles| :: bundles[i]
  }

  /** Keyed records collected into a map, as `collect::<HashMap<_, _>>` does: a later key replaces an earlier one. */
  function Table<V>(pairs: seq<(nat, V)>): map<nat, V>
    decreases |pairs|
  {
    if pairs == [] then map[]
    else Table(pairs[..|pairs| - 1])[pairs[|pairs| - 1].0 := pairs[|pairs| - 1].1]
  }

  // ---------------------------------------------------------------------
  // The whole table area.

  /** A table: a u32 record count at `p`, then that many records. */
  function Counted<T>(step: Step<T>, data: seq<u8>, p: nat): Result<(seq<T>, nat)> {
    var count :- U32At(data, p);
    Repeat(step, data, p + 4, count)
  }

  /**
   * src/reader.rs: the resolved file map, and the position the cursor is set
   * to after skipping `20 * count` bytes of path reps. That position is not
   * checked against the data here.
   */
  function ReaderTables(data: seq<u8>): (r: Result<(map<nat, BundledFile>, nat)>)
    ensures |data| < 4 ==> r == Err(EndOfStream)
    ensures r.Err? ==> r.failure == EndOfStream || r.failure == InvalidUtf8 || r.failure == UnknownBundle
  {
    var bundles :- Counted(BundleAt, data, 0);
    var files :- Counted(ResolvedFileStep(BundleMap(bundles.0)), data, bundles.1);
    var pathRepCount :- U32At(data, files.1);
    Ok((Table(files.0), files.1 + 4 + 20 * pathRepCount))
  }

  /** The three maps of src/lib.rs. */
  datatype Index = Index(bundles: map<nat, Bundle>, files: map<nat, File>, pathReps: map<nat, PathRep>)

  /** src/lib.rs: the three tables, each record parsed, and the position where the last one ends. */
  function LibTables(data: seq<u8>): (r: Result<(Index, nat)>)
    ensures |data| < 4 ==> r == Err(EndOfStream)
    ensures r.Err? ==> r.failure == EndOfStream || r.failure == InvalidUtf8
  {
    var bundles :- Counted(BundleAt, data, 0);
    var files :- Counted(FileAt, data, bundles.1);
    var pathReps :- Counted(PathRepAt, data, files.1);
    Ok((Index(BundleMap(bundles.0), Table(files.0), Table(pathReps.0)), pathReps.1))
  }

  // ---------------------------------------------------------------------
  // Reading the tables through a cursor.

  /** One bundle record: the name length, the name byte by byte, the size, then the UTF-8 check. */
  method ReadBundle(c: Cursor) returns (r: Result<Bundle>)
    modifies c
    ensures match BundleAt(c.data, old(c.pos))
      case Ok((b, next)) => r == Ok(b) && c.pos == next
      case Err(f) => r == Err(f)
  {
    var len :- c.ReadU32();
    var name :- c.ReadBytes(len);
    var size :- c.ReadU32();
    if !Utf8.Valid(name) {
      return Err(InvalidUtf8);
    }
    return Ok(Bundle(name, size));
  }

  /** The bundle table, keyed by each bundle's position in it. */
  method ReadBundles(c: Cursor) returns (r: Result<map<nat, Bundle>>)
    modifies c
    ensures match Counted(BundleAt, c.data, old(c.pos))
      case Ok((bundles, next)) => r == Ok(BundleMap(bundles)) && c.pos == next
      case Err(f) => r == Err(f)
  {
    ghost var start := c.pos + 4;
    var count :- c.ReadU32();
    var bundles: map<nat, Bundle> := map[];
    ghost var items: seq<Bundle> := [];
    for i := 0 to count
      invariant Repeat(BundleAt, c.data, start, i) == Ok((items, c.pos))
      invariant bundles == BundleMap(items)
    {
      var b := ReadBundle(c);
      if b.Err? {
        RepeatStopsAtFailure(BundleAt, c.data, start, i, count);
        return Err(b.failure);
      }
      bundles := bundles[i := b.value];
      BundleMapSnoc(items, b.value);
      items := items + [b.value];
    }
    return Ok(bundles);
  }

  /** One file record of src/reader.rs, resolved against the bundle table. */
  method ReadResolvedFile(c: Cursor, bundles: map<nat, Bundle>) returns (r: Result<(nat, BundledFile)>)
    modifies c
    ensures match ResolvedFileAt(bundles, c.data, old(c.pos))
      case Ok((x, next)) => r == Ok(x) && c.pos == next
      case Err(f) => r == Err(f)
  {
    var hash :- c.ReadU64();
    var id :- c.ReadU32();
    if id !in bundles {
      return Err(UnknownBundle);
    }
    var bundle := bundles[id];
    var offset :- c.ReadU32();
    var size :- c.ReadU32();
    return Ok((hash, BundledFile(bundle.name, bundle.uncompressedSize, offset, size)));
  }

  /** The file table of src/reader.rs, keyed by path hash. */
  method ReadResolvedFiles(c: Cursor, bundles: map<nat, Bundle>) returns (r: Result<map<nat, BundledFile>>)
    modifies c
    ensures match Counted(ResolvedFileStep(bundles), c.data, old(c.pos))
      case Ok((files, next)) => r == Ok(Table(files)) && c.pos == next
      case Err(f) => r == Err(f)
  {
    ghost var start := c.pos + 4;
    var count :- c.ReadU32();
    var files: map<nat, BundledFile> := map[];
    ghost var items: seq<(nat, BundledFile)> := [];
    for i := 0 to count
      invariant Repeat(ResolvedFileStep(bundles), c.data, start, i) == Ok((items, c.pos))
      invariant files == Table(items)
    {
      ghost var p := c.pos;
      var f := ReadResolvedFile(c, bundles);
      assert ResolvedFileStep(bundles)(c.data, p) == ResolvedFileAt(bundles, c.data, p);
      if f.Err? {
        RepeatStopsAtFailure(ResolvedFileStep(bundles), c.data, start, i, count);
        return Err(f.failure);
      }
      files := files[f.value.0 := f.value.1];
      TableSnoc(items, f.value);
      items := items + [f.value];
    }
    return Ok(files);
  }

  /**
   * The table part of `build_index`: bundles, resolved files, then the
   * path-rep count, whose records are skipped by moving the cursor.
   */
  method ReadReaderTables(data: seq<u8>) returns (r: Result<(map<nat, BundledFile>, nat)>)
    ensures r == ReaderTables(data)
  {
    var c := new Cursor(data);
    var bundles :- ReadBundles(c);
    var files :- ReadResolvedFiles(c, bundles);
    var pathRepCount :- c.ReadU32();
    c.SetPosition(c.pos + 20 * pathRepCount);
    return Ok((files, c.pos));
  }

  /** One file record of src/lib.rs. */
  method ReadFile(c: Cursor) returns (r: Result<(nat, File)>)
    modifies c
    ensures match FileAt(c.data, old(c.pos))
      case Ok((x, next)) => r == Ok(x) && c.pos == next
      case Err(f) => r == Err(f)
  {
    var hash :- c.ReadU64();
    var id :- c.ReadU32();
    var offset :- c.ReadU32();
    var size :- c.ReadU32();
    return Ok((hash, File(id, offset, size)));
  }

  /** The file table of src/lib.rs, keyed by path hash. */
  method ReadFiles(c: Cursor) returns (r: Result<map<nat, File>>)
    modifies c
    ensures match Counted(FileAt, c.data, old(c.pos))
      case Ok((files, next)) => r == Ok(Table(files)) && c.pos == next
      case Err(f) => r == Err(f)
  {
    ghost var start := c.pos + 4;
    var count :- c.ReadU32();
    var files: map<nat, File> := map[];
    ghost var items: seq<(nat, File)> := [];
    for i := 0 to count
      invariant Repeat(FileAt, c.data, start, i) == Ok((items, c.pos))
      invariant files == Table(items)
    {
      var f := ReadFile(c);
      if f.Err? {
        RepeatStopsAtFailure(FileAt, c.data, start, i, count);
        return Err(f.failure);
      }
      files := files[f.value.0 := f.value.1];
      TableSnoc(items, f.value);
      items := items + [f.value];
    }
    return Ok(files);
  }

  /** One path-rep record. */
  method ReadPathRep(c: Cursor) returns (r: Result<(nat, PathRep)>)
    modifies c
    ensures match PathRepAt(c.data, old(c.pos))
      case Ok((x, next)) => r == Ok(x) && c.pos == next
      case Err(f) => r == Err(f)
  {
    var hash :- c.ReadU64();
    var offset :- c.ReadU32();
    var size :- c.ReadU32();
    var recursive :- c.ReadU32();
    return Ok((hash, PathRep(offset, size, recursive)));
  }

  /** The path-rep table of src/lib.rs, keyed by hash. */
  method ReadPathReps(c: Cursor) returns (r: Result<map<nat, PathRep>>)
    modifies c
    ensures match Counted(PathRepAt, c.data, old(c.pos))
      case Ok((reps, next)) => r == Ok(Table(reps)) && c.pos == next
      case Err(f) => r == Err(f)
  {
    ghost var start := c.pos + 4;
    var count :- c.ReadU32();
    var reps: map<nat, PathRep> := map[];
    ghost var items: seq<(nat, PathRep)> := [];
    for i := 0 to count
      invariant Repeat(PathRepAt, c.data, start, i) == Ok((items, c.pos))
      invariant reps == Table(items)
    {
      var rep := ReadPathRep(c);
      if rep.Err? {
        RepeatStopsAtFailure(PathRepAt, c.data, start, i, count);
        return Err(rep.failure);
      }
      reps := reps[rep.value.0 := rep.value.1];
      TableSnoc(items, rep.value);
      items := items + [rep.value];
    }
    return Ok(reps);
  }

  /** The next bundle is stored under the next position. */
  lemma BundleMapSnoc(bundles: seq<Bundle>, b: Bundle)
    ensures BundleMap(bundles + [b]) == BundleMap(bundles)[|bundles| := b]
  {
  }

  /** Adding a record to the end of the run stores it over whatever the key held. */
  lemma TableSnoc<V>(pairs: seq<(nat, V)>, x: (nat, V))
    ensures Table(pairs + [x]) == Table(pairs)[x.0 := x.1]
  {
    assert (pairs + [x])[..|pairs|] == pairs;
  }

  // ---------------------------------------------------------------------
  // Facts about runs of records.

  /** Every record `step` reads takes exactly `w` bytes. */
  ghost predicate Advances<T>(step: Step<T>, w: nat) {
    forall data: seq<u8>, p: nat :: step(data, p).Ok? ==> step(data, p).value.1 == p + w
  }

  /** `step` reads a record exactly where `w` bytes remain. */
  ghost predicate Fits<T>(step: Step<T>, w: nat) {
    forall data: seq<u8>, p: nat :: step(data, p).Ok? <==> p + w <= |data|
  }

  /** A run of fixed-width records ends `w * k` bytes after it starts. */
  lemma {:induction false} RepeatStride<T>(step: Step<T>, w: nat, data: seq<u8>, start: nat, k: nat)
    requires Advances(step, w)
    requires Repeat(step, data, start, k).Ok?
    ensures Repeat(step, data, start, k).value.1 == start + w * k
  {
    if k > 0 {
      RepeatStride(step, w, data, start, k - 1);
      assert w * k == w * (k - 1) + w;
    }
  }

  /** A run of fixed-width records that need nothing but their bytes succeeds exactly when the bytes are there. */
  lemma {:induction false} RepeatFits<T>(step: Step<T>, w: nat, data: seq<u8>, start: nat, k: nat)
    requires Advances(step, w) && Fits(step, w) && start <= |data|
    ensures Repeat(step, data, start, k).Ok? <==> start + w * k <= |data|
  {
    if k > 0 {
      RepeatFits(step, w, data, start, k - 1);
      assert w * k == w * (k - 1) + w;
      if Repeat(step, data, start, k - 1).Ok? {
        RepeatStride(step, w, data, start, k - 1);
        var end := Repeat(step, data, start, k - 1).value.1;
        assert step(data, end).Ok? <==> end + w <= |data|;
      }
    }
  }

  /** After a failing record the run fails with it, however many records it was to read. */
  lemma {:induction false} RepeatStopsAtFailure<T>(step: Step<T>, data: seq<u8>, start: nat, i: nat, k: nat)
    requires i < k
    requires Repeat(step, data, start, i).Ok?
    requires step(data, Repeat(step, data, start, i).value.1).Err?
    ensures Repeat(step, data, start, k) == Err(step(data, Repeat(step, data, start, i).value.1).failure)
    decreases k
  {
    if k > i + 1 {
      RepeatStopsAtFailure(step, data, start, i, k - 1);
    }
  }

  /** File and path-rep records are 20 bytes wide. */
  lemma FixedWidthRecords()
    ensures Advances(FileAt, 20) && Fits(FileAt, 20)
    ensures Advances(PathRepAt, 20) && Fits(PathRepAt, 20)
  {
  }

  /** A resolved file record is 20 bytes wide too, whatever the bundle table. */
  lemma ResolvedWidth(bundles: map<nat, Bundle>)
    ensures Advances(ResolvedFileStep(bundles), 20)
  {
    forall data: seq<u8>, p: nat | ResolvedFileStep(bundles)(data, p).Ok?
      ensures ResolvedFileStep(bundles)(data, p).value.1 == p + 20
    {
      assert ResolvedFileStep(bundles)(data, p) == ResolvedFileAt(bundles, data, p);
    }
  }

  /** A key is in the map exactly when some record carries it. */
  lemma {:induction false} TableKeys<V>(pairs: seq<(nat, V)>, key: nat)
    ensures key in Table(pairs) <==> exists k :: 0 <= k < |pairs| && pairs[k].0 == key
    decreases |pairs|
  {
    if pairs != [] {
      var init := pairs[..|pairs| - 1];
      TableKeys(init, key);
      if key in Table(init) {
        var k :| 0 <= k < |init| && init[k].0 == key;
        assert pairs[k].0 == key;
      }
      if exists k :: 0 <= k < |pairs| && pairs[k].0 == key {
        var k :| 0 <= k < |pairs| && pairs[k].0 == key;
        if k < |init| {
          assert init[k].0 == key;
        }
      }
    }
  }

  /** The map holds, for each key, the value of the last record that carries it. */
  lemma {:induction false} TableLastWins<V>(pairs: seq<(nat, V)>, k: nat)
    requires k < |pairs|
    requires forall j :: k < j < |pairs| ==> pairs[j].0 != pairs[k].0
    ensures pairs[k].0 in Table(pairs) && Table(pairs)[pairs[k].0] == pairs[k].1
    decreases |pairs|
  {
    var init := pairs[..|pairs| - 1];
    if k < |init| {
      TableLastWins(init, k);
      assert init[k] == pairs[k];
    }
  }

  /** A resolved file record is the raw record with the bundle's name and size put in place of its id. */
  lemma ResolvedIsLookedUp(bundles: map<nat, Bundle>, data: seq<u8>, p: nat)
    requires ResolvedFileAt(bundles, data, p).Ok?
    ensures FileAt(data, p).Ok?
    ensures var ((hash, raw), next) := FileAt(data, p).value;
      && raw.bundleIndex in bundles
      && ResolvedFileAt(bundles, data, p).value
         == ((hash, BundledFile(bundles[raw.bundleIndex].name, bundles[raw.bundleIndex].uncompressedSize, raw.offset, raw.size)), next)
  {
  }

  /** A raw file record with its bundle id replaced by that bundle's name and size. */
  function Resolve(bundles: map<nat, Bundle>, file: File): BundledFile
    requires file.bundleIndex in bundles
  {
    BundledFile(bundles[file.bundleIndex].name, bundles[file.bundleIndex].uncompressedSize, file.offset, file.size)
  }

  /** The resolved table has the raw table's keys, each entry resolved against `bundles`. */
  predicate Resolves(bundles: map<nat, Bundle>, resolved: map<nat, BundledFile>, raw: map<nat, File>) {
    && resolved.Keys == raw.Keys
    && forall h :: h in raw ==> raw[h].bundleIndex in bundles && resolved[h] == Resolve(bundles, raw[h])
  }

  /**
   * Where src/reader.rs reads a run of file records, src/lib.rs reads the
   * same run: it ends at the same place, and the reader's map is the lib's
   * map resolved against the bundle table.
   */
  lemma {:induction false} ResolvedRun(bundles: map<nat, Bundle>, data: seq<u8>, start: nat, k: nat)
    requires Repeat(ResolvedFileStep(bundles), data, start, k).Ok?
    ensures Repeat(FileAt, data, start, k).Ok?
    ensures Repeat(FileAt, data, start, k).value.1 == Repeat(ResolvedFileStep(bundles), data, start, k).value.1
    ensures Resolves(bundles, Table(Repeat(ResolvedFileStep(bundles), data, start, k).value.0),
                              Table(Repeat(FileAt, data, start, k).value.0))
  {
    if k > 0 {
      ResolvedRun(bundles, data, start, k - 1);
      var resolved := Repeat(ResolvedFileStep(bundles), data, start, k - 1).value.0;
      var raw := Repeat(FileAt, data, start, k - 1).value.0;
      var p := Repeat(FileAt, data, start, k - 1).value.1;
      assert ResolvedFileStep(bundles)(data, p) == ResolvedFileAt(bundles, data, p);
      ResolvedIsLookedUp(bundles, data, p);
      TableSnoc(resolved, ResolvedFileAt(bundles, data, p).value.0);
      TableSnoc(raw, FileAt(data, p).value.0);
    }
  }

  /** A counted table of fixed-width records ends `4 + w * count` bytes after it starts. */
  lemma CountedStride<T>(step: Step<T>, w: nat, data: seq<u8>, p: nat)
    requires Advances(step, w)
    requires Counted(step, data, p).Ok?
    ensures p + 4 <= |data| && Counted(step, data, p).value.1 == p + 4 + w * LeU32(data, p)
  {
    RepeatStride(step, w, data, p + 4, LeU32(data, p));
  }

  /** The tables of src/lib.rs end inside the data, so the remainder after them can be sliced off. */
  lemma LibTablesLayout(data: seq<u8>)
    requires LibTables(data).Ok?
    ensures LibTables(data).value.1 <= |data|
  {
    assert Counted(BundleAt, data, 0).Ok?;
    LibTablesEnd(data);
  }

  /** Where the tables of src/lib.rs end, spelled out from the two counts after the bundle table. */
  lemma LibTablesEnd(data: seq<u8>)
    requires Counted(BundleAt, data, 0).Ok?
    requires LibTables(data).Ok?
    ensures var bundlesEnd := Counted(BundleAt, data, 0).value.1;
      bundlesEnd + 4 <= |data|
    ensures var bundlesEnd := Counted(BundleAt, data, 0).value.1;
      var filesEnd := bundlesEnd + 4 + 20 * LeU32(data, bundlesEnd);
      && filesEnd + 4 <= |data|
      && LibTables(data).value.1 == filesEnd + 4 + 20 * LeU32(data, filesEnd) <= |data|
  {
    var bundlesEnd := Counted(BundleAt, data, 0).value.1;
    FixedWidthRecords();
    var files := Counted(FileAt, data, bundlesEnd);
    assert files.Ok?;
    CountedStride(FileAt, 20, data, bundlesEnd);
    var filesEnd := files.value.1;
    var reps := Counted(PathRepAt, data, filesEnd);
    assert reps.Ok? && LibTables(data).value.1 == reps.value.1;
    CountedStride(PathRepAt, 20, data, filesEnd);
    RepeatFits(PathRepAt, 20, data, filesEnd + 4, LeU32(data, filesEnd));
  }

  /** The 20-byte skip of src/reader.rs lands where src/lib.rs finishes parsing the path reps. */
  lemma ReaderSkipAgrees(data: seq<u8>)
    requires LibTables(data).Ok? && ReaderTables(data).Ok?
    ensures ReaderTables(data).value.1 == LibTables(data).value.1
  {
    assert Counted(BundleAt, data, 0).Ok?;
    ResolvedFilesEnd(data);
    LibTablesEnd(data);
  }

  /** The reader's skip position, spelled out from the two counts after the bundle table. */
  lemma ResolvedFilesEnd(data: seq<u8>)
    requires Counted(BundleAt, data, 0).Ok?
    requires ReaderTables(data).Ok?
    ensures var bundlesEnd := Counted(BundleAt, data, 0).value.1;
      bundlesEnd + 4 <= |data|
    ensures var bundlesEnd := Counted(BundleAt, data, 0).value.1;
      var filesEnd := bundlesEnd + 4 + 20 * LeU32(data, bundlesEnd);
      && filesEnd + 4 <= |data|
      && ReaderTables(data).value.1 == filesEnd + 4 + 20 * LeU32(data, filesEnd)
  {
    var (bundles, bundlesEnd) := Counted(BundleAt, data, 0).value;
    var step := ResolvedFileStep(BundleMap(bundles));
    ResolvedWidth(BundleMap(bundles));
    CountedStride(step, 20, data, bundlesEnd);
  }

  /** The reader's file map is the run of resolved records after the bundle table. */
  lemma ReaderFiles(data: seq<u8>, bundles: seq<Bundle>, bundlesEnd: nat)
    requires Counted(BundleAt, data, 0) == Ok((bundles, bundlesEnd))
    requires ReaderTables(data).Ok?
    ensures bundlesEnd + 4 <= |data|
    ensures var run := Repeat(ResolvedFileStep(BundleMap(bundles)), data, bundlesEnd + 4, LeU32(data, bundlesEnd));
      run.Ok? && ReaderTables(data).value.0 == Table(run.value.0)
  {
    var files := Counted(ResolvedFileStep(BundleMap(bundles)), data, bundlesEnd);
    assert files.Ok? && ReaderTables(data).value.0 == Table(files.value.0);
    assert files == Repeat(ResolvedFileStep(BundleMap(bundles)), data, bundlesEnd + 4, LeU32(data, bundlesEnd));
  }

  /** The lib's bundle and file maps are the bundle table and the run of raw records after it. */
  lemma LibFiles(data: seq<u8>, bundles: seq<Bundle>, bundlesEnd: nat)
    requires Counted(BundleAt, data, 0) == Ok((bundles, bundlesEnd))
    requires LibTables(data).Ok?
    ensures bundlesEnd + 4 <= |data|
    ensures var run := Repeat(FileAt, data, bundlesEnd + 4, LeU32(data, bundlesEnd));
      && run.Ok?
      && LibTables(data).value.0.bundles == BundleMap(bundles)
      && LibTables(data).value.0.files == Table(run.value.0)
  {
    var files := Counted(FileAt, data, bundlesEnd);
    assert files.Ok? && LibTables(data).value.0.files == Table(files.value.0);
    assert files == Repeat(FileAt, data, bundlesEnd + 4, LeU32(data, bundlesEnd));
  }
}
