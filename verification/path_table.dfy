/**
 * The path table: the decompressed blob at the end of the index that
 * `build_paths` (src/reader.rs) and the loop inside `read_index`
 * (src/lib.rs) turn into the list of logical file paths.
 *
 * The blob is a run of records. A record is a u32 index; a non-zero index
 * is followed by a NUL-terminated UTF-8 suffix. Index 0 toggles the
 * generation phase, emptying the palette ("table") when the phase is
 * entered. Any other index builds a string, prefixed by palette entry
 * `index - 1` when that entry exists, and appends it to the palette during
 * generation and to the output otherwise.
 */
module PathTable {
  import opened Wire
  import opened Cursors
  import Utf8

  datatype Record = Toggle | Entry(index: nat, suffix: Text)

  predicate WellFormed(rec: Record) {
    rec.Entry? ==>
      && 0 < rec.index < U32_LIMIT
      && NulFree(rec.suffix)
      && Utf8.Valid(rec.suffix)
  }

  /** Every record of the run is well formed. */
  predicate AllWellFormed(recs: seq<Record>)
    decreases |recs|
  {
    recs == [] || (WellFormed(recs[0]) && AllWellFormed(recs[1..]))
  }

  /** Every entry's suffix is well-formed UTF-8. */
  predicate SuffixesValid(recs: seq<Record>) {
    forall i :: 0 <= i < |recs| && recs[i].Entry? ==> Utf8.Valid(recs[i].suffix)
  }

  function Glue(done: seq<Record>, rest: Result<seq<Record>>): Result<seq<Record>> {
    match rest
    case Ok(recs) => Ok(done + recs)
    case Err(f) => Err(f)
  }

  /**
   * The records from `pos` on. Parsing stops, successfully, as soon as
   * fewer than 4 bytes remain; a suffix with no NUL before the end, or one
   * that is not UTF-8, fails.
   */
  function Records(bytes: seq<u8>, pos: nat): (r: Result<seq<Record>>)
    ensures pos + 4 > |bytes| ==> r == Ok([])
    ensures r.Ok? ==> SuffixesValid(r.value)
    ensures r.Err? ==> r.failure == EndOfStream || r.failure == InvalidUtf8
    decreases |bytes| - pos
  {
    if pos + 4 > |bytes| then Ok([])
    else
      var index := LeU32(bytes, pos);
      if index == 0 then Glue([Toggle], Records(bytes, pos + 4))
      else
        match CString(bytes, pos + 4)
        case Err(f) => Err(f)
        case Ok((text, next)) => Glue([Entry(index, text)], Records(bytes, next))
  }

  datatype State = State(generation: bool, table: seq<Text>, files: seq<Text>)

  const Initial := State(false, [], [])

  /** The string an entry builds against palette `table`. */
  function Expansion(table: seq<Text>, index: nat, suffix: Text): Text {
    if 0 < index <= |table| then table[index - 1] + suffix else suffix
  }

  /** One record's effect on the decoder state. */
  function Step(st: State, rec: Record): State {
    match rec
    case Toggle =>
      var generation := !st.generation;
      State(generation, if generation then [] else st.table, st.files)
    case Entry(index, suffix) =>
      var text := Expansion(st.table, index, suffix);
      if st.generation then st.(table := st.table + [text])
      else st.(files := st.files + [text])
  }

  /** The records applied one after the other. */
  function Run(st: State, recs: seq<Record>): State
    decreases |recs|
  {
    if recs == [] then st else Step(Run(st, recs[..|recs| - 1]), recs[|recs| - 1])
  }

  /** Every string is well-formed UTF-8. */
  predicate TextsValid(texts: seq<Text>) {
    forall i :: 0 <= i < |texts| ==> Utf8.Valid(texts[i])
  }

  /**
   * The paths the blob decodes to. A blob too short to hold another index
   * decodes to nothing; a blob that fails, fails at a string; and every
   * path is well-formed UTF-8, since it is a palette entry (itself built
   * from UTF-8 strings) followed by a UTF-8 suffix.
   */
  function Decode(bytes: seq<u8>): (r: Result<seq<Text>>)
    ensures |bytes| < 4 ==> r == Ok([])
    ensures r.Err? ==> r.failure == EndOfStream || r.failure == InvalidUtf8
    ensures r.Ok? ==> TextsValid(r.value)
  {
    match Records(bytes, 0)
    case Err(f) => Err(f)
    case Ok(recs) =>
      RunKeepsUtf8(Initial, recs);
      Ok(Run(Initial, recs).files)
  }

  /** Records with UTF-8 suffixes keep the palette and the output UTF-8. */
  lemma {:induction false} RunKeepsUtf8(st: State, recs: seq<Record>)
    requires TextsValid(st.table) && TextsValid(st.files) && SuffixesValid(recs)
    ensures TextsValid(Run(st, recs).table) && TextsValid(Run(st, recs).files)
    decreases |recs|
  {
    if recs != [] {
      var init := recs[..|recs| - 1];
      assert SuffixesValid(init) by {
        forall i | 0 <= i < |init| && init[i].Entry? ensures Utf8.Valid(init[i].suffix) {
          assert init[i] == recs[i];
        }
      }
      RunKeepsUtf8(st, init);
      var mid := Run(st, init);
      var rec := recs[|recs| - 1];
      if rec.Entry? {
        if 0 < rec.index <= |mid.table| {
          Utf8.ValidConcat(mid.table[rec.index - 1], rec.suffix);
        }
      }
    }
  }

  // ---------------------------------------------------------------------
  // The decoding loop.

  /**
   * `build_paths` (and the identical loop inside `read_index` of
   * src/lib.rs): read indexes while four bytes remain, keeping the phase,
   * the palette and the output in local variables.
   */
  method BuildPaths(bytes: seq<u8>) returns (r: Result<seq<Text>>)
    ensures r == Decode(bytes)
  {
    var c := new Cursor(bytes);
    var generation := false;
    var table: seq<Text> := [];
    var files: seq<Text> := [];
    ghost var done: seq<Record> := [];
    assert Records(bytes, 0).Ok? ==> [] + Records(bytes, 0).value == Records(bytes, 0).value;
    while c.pos + 4 <= |bytes|
      invariant c.data == bytes && c.pos <= |bytes|
      invariant Records(bytes, 0) == Glue(done, Records(bytes, c.pos))
      invariant Run(Initial, done) == State(generation, table, files)
      decreases |bytes| - c.pos
    {
      ghost var before := State(generation, table, files);
      ghost var p := c.pos;
      var read := c.ReadU32();
      var index := read.value;
      ghost var rec: Record := Toggle;
      if index == 0 {
        generation := !generation;
        if generation {
          table := [];
        }
      }
      if index > 0 {
        var suffix := ReadUtf8(c);
        if suffix.Err? {
          return Err(suffix.failure);
        }
        rec := Entry(index, suffix.value);
        var text := suffix.value;
        if index <= |table| {
          text := table[index - 1] + text;
        }
        assert text == Expansion(before.table, index, suffix.value);
        if generation {
          table := table + [text];
        } else {
          files := files + [text];
        }
      }
      assert State(generation, table, files) == Step(before, rec);
      GlueStep(done, rec, Records(bytes, c.pos));
      RunSnoc(done, rec);
      done := done + [rec];
    }
    assert done + [] == done;
    return Ok(files);
  }

  lemma GlueStep(done: seq<Record>, rec: Record, rest: Result<seq<Record>>)
    ensures Glue(done, Glue([rec], rest)) == Glue(done + [rec], rest)
  {
    if rest.Ok? {
      assert done + ([rec] + rest.value) == done + [rec] + rest.value;
    }
  }

  lemma RunSnoc(done: seq<Record>, rec: Record)
    ensures Run(Initial, done + [rec]) == Step(Run(Initial, done), rec)
  {
    assert (done + [rec])[..|done|] == done;
  }

  // ---------------------------------------------------------------------
  // Facts about the decoder.

  /** Decoding is a left fold: the records after a prefix continue from the prefix's state. */
  lemma {:induction false} RunAppend(st: State, a: seq<Record>, b: seq<Record>)
    ensures Run(st, a + b) == Run(Run(st, a), b)
    decreases |b|
  {
    if b == [] {
      assert a + b == a;
    } else {
      assert (a + b)[..|a + b| - 1] == a + b[..|b| - 1];
      RunAppend(st, a, b[..|b| - 1]);
    }
  }

  /**
   * Two zeros in a row leave the phase and the output as they were, but the
   * palette is empty afterwards (whichever of the two zeros enters
   * generation clears it).
   */
  lemma DoubleToggle(st: State)
    ensures Run(st, [Toggle, Toggle]) == State(st.generation, [], st.files)
  {
    assert [Toggle, Toggle][..1] == [Toggle];
    assert [Toggle][..0] == [];
  }

  /**
   * An entry builds `table[index - 1] + suffix` when that palette entry
   * exists and the bare suffix otherwise; it goes to the palette during
   * generation and to the output otherwise, and nothing else changes.
   */
  lemma EntryRouting(st: State, index: nat, suffix: Text)
    requires index > 0
    ensures var next := Step(st, Entry(index, suffix));
      var text := Expansion(st.table, index, suffix);
      && (index <= |st.table| ==>
            (|text| == |st.table[index - 1]| + |suffix|
             && text[..|st.table[index - 1]|] == st.table[index - 1]
             && text[|st.table[index - 1]|..] == suffix))
      && (index > |st.table| ==> text == suffix)
      && next.generation == st.generation
      && (st.generation ==> next.table == st.table + [text] && next.files == st.files)
      && (!st.generation ==> next.files == st.files + [text] && next.table == st.table)
  {
  }

  /** The paths a run of entries emits against a fixed palette. */
  function Emitted(table: seq<Text>, recs: seq<Record>): (out: seq<Text>)
    requires forall k :: 0 <= k < |recs| ==> recs[k].Entry?
    ensures |out| == |recs|
  {
    seq(|recs|, k requires 0 <= k < |recs| => Expansion(table, recs[k].index, recs[k].suffix))
  }

  /**
   * Outside generation, a run of entries keeps the palette and emits one
   * path per entry, each built against that same palette.
   */
  lemma {:induction false} OutputPhase(st: State, recs: seq<Record>)
    requires !st.generation
    requires forall k :: 0 <= k < |recs| ==> recs[k].Entry?
    ensures Run(st, recs) == st.(files := st.files + Emitted(st.table, recs))
    decreases |recs|
  {
    if recs == [] {
      assert st.files + Emitted(st.table, recs) == st.files;
    } else {
      var init := recs[..|recs| - 1];
      OutputPhase(st, init);
      assert Emitted(st.table, recs) == Emitted(st.table, init) + [Emitted(st.table, recs)[|recs| - 1]];
    }
  }

  /** The output only grows: paths already emitted stay, in order. */
  lemma {:induction false} FilesOnlyGrow(st: State, recs: seq<Record>)
    ensures |st.files| <= |Run(st, recs).files|
    ensures Run(st, recs).files[..|st.files|] == st.files
    decreases |recs|
  {
    if recs != [] {
      FilesOnlyGrow(st, recs[..|recs| - 1]);
    }
  }

  // ---------------------------------------------------------------------
  // Writing a blob, and reading it back.

  /**
   * The bytes of one record: its index as a little-endian u32 (its low 32
   * bits), then, for an entry, the suffix and a NUL.
   */
  function EncodeRecord(rec: Record): (b: seq<u8>)
    ensures |b| == Width(rec)
  {
    match rec
    case Toggle => U32Bytes(0)
    case Entry(index, suffix) => U32Bytes(index % U32_LIMIT) + suffix + [0]
  }

  /** The bytes of a run of records, one after the other. */
  function EncodeRecords(recs: seq<Record>): seq<u8> {
    if recs == [] then [] else EncodeRecord(recs[0]) + EncodeRecords(recs[1..])
  }

  /** How many bytes a record takes. */
  function Width(rec: Record): nat {
    match rec
    case Toggle => 4
    case Entry(_, suffix) => 5 + |suffix|
  }

  /** The encoding of the well-formed record `rec` sits at `p`. */
  predicate StoredAt(data: seq<u8>, p: nat, rec: Record) {
    && WellFormed(rec)
    && p + Width(rec) <= |data|
    && data[p..p + Width(rec)] == EncodeRecord(rec)
  }

  /** The encodings of `recs` sit one after the other from `p`, and fewer than four bytes follow them. */
  predicate StoredFrom(data: seq<u8>, p: nat, recs: seq<Record>)
    decreases |recs|
  {
    if recs == [] then p <= |data| < p + 4
    else StoredAt(data, p, recs[0]) && StoredFrom(data, p + Width(recs[0]), recs[1..])
  }

  /** A stored record reads back: its index, and for an entry its suffix up to the NUL. */
  lemma RecordReadsBack(data: seq<u8>, p: nat, rec: Record)
    requires StoredAt(data, p, rec)
    ensures p + 4 <= |data|
    ensures rec.Toggle? ==> LeU32(data, p) == 0
    ensures rec.Entry? ==> LeU32(data, p) == rec.index && CString(data, p + 4) == Ok((rec.suffix, p + Width(rec)))
  {
    match rec
    case Toggle =>
      IndexAt(data, p, 0, []);
    case Entry(index, suffix) =>
      assert index % U32_LIMIT == index;
      assert EncodeRecord(rec) == U32Bytes(index) + (suffix + [0]);
      IndexAt(data, p, index, suffix + [0]);
      SuffixAt(data, p, index, suffix);
      NulFreeIndices(suffix);
      CStringOfText(data, p + 4, suffix);
  }

  /** The parser reads a stored record and continues right after it. */
  lemma RecordStep(data: seq<u8>, p: nat, rec: Record, rest: seq<Record>)
    requires StoredAt(data, p, rec) && Records(data, p + Width(rec)) == Ok(rest)
    ensures Records(data, p) == Ok([rec] + rest)
  {
    RecordReadsBack(data, p, rec);
  }

  /** Stored records parse back to themselves. */
  lemma {:induction false} RecordsOfStored(data: seq<u8>, p: nat, recs: seq<Record>)
    requires StoredFrom(data, p, recs)
    ensures Records(data, p) == Ok(recs)
    decreases |recs|
  {
    if recs != [] {
      RecordsOfStored(data, p + Width(recs[0]), recs[1..]);
      RecordStep(data, p, recs[0], recs[1..]);
      assert [recs[0]] + recs[1..] == recs;
    }
  }

  /** Encoded records, followed by fewer than four bytes, are stored records. */
  lemma {:induction false} EncodingIsStored(data: seq<u8>, p: nat, recs: seq<Record>, tail: seq<u8>)
    requires AllWellFormed(recs) && |tail| < 4
    requires p <= |data| && data[p..] == EncodeRecords(recs) + tail
    ensures StoredFrom(data, p, recs)
    decreases |recs|
  {
    if recs == [] {
      assert |data| - p == |tail|;
    } else {
      var rest := EncodeRecords(recs[1..]) + tail;
      var w := Width(recs[0]);
      assert data[p..] == EncodeRecord(recs[0]) + rest;
      EncodedHead(data, p, recs[0], rest);
      EncodingIsStored(data, p + w, recs[1..], tail);
      StoredStep(data, p, recs[0], recs[1..]);
      assert [recs[0]] + recs[1..] == recs;
    }
  }

  lemma StoredStep(data: seq<u8>, p: nat, rec: Record, rest: seq<Record>)
    requires StoredAt(data, p, rec) && StoredFrom(data, p + Width(rec), rest)
    ensures StoredFrom(data, p, [rec] + rest)
  {
    assert ([rec] + rest)[1..] == rest;
  }

  /** An encoded record is stored where it is written, and what follows it starts right after it. */
  lemma EncodedHead(data: seq<u8>, p: nat, rec: Record, rest: seq<u8>)
    requires WellFormed(rec)
    requires p <= |data| && data[p..] == EncodeRecord(rec) + rest
    ensures StoredAt(data, p, rec)
    ensures p + Width(rec) <= |data| && data[p + Width(rec)..] == rest
  {
    var w := Width(rec);
    SplitAt(data, p, EncodeRecord(rec), rest);
    assert data[p..p + w] == EncodeRecord(rec) && data[p + w..] == rest;
  }

  lemma SplitAt(data: seq<u8>, p: nat, head: seq<u8>, tail: seq<u8>)
    requires p <= |data| && data[p..] == head + tail
    ensures p + |head| <= |data|
    ensures data[p..p + |head|] == head && data[p + |head|..] == tail
  {
    assert data[p..p + |head|] == (head + tail)[..|head|];
    assert data[p + |head|..] == (head + tail)[|head|..];
  }

  /** The index stored at the head of an encoded record. */
  lemma IndexAt(data: seq<u8>, p: nat, index: nat, rest: seq<u8>)
    requires index < U32_LIMIT
    requires p + 4 + |rest| <= |data| && data[p..p + 4 + |rest|] == U32Bytes(index) + rest
    ensures LeU32(data, p) == index
  {
    var enc := U32Bytes(index) + rest;
    LeU32OfBytes([], index, rest);
    assert [] + U32Bytes(index) + rest == enc;
    forall k | 0 <= k < 4 ensures data[p + k] == enc[k] {
      assert data[p..p + |enc|][k] == enc[k];
    }
  }

  /** The suffix and the NUL stored after the index of an encoded entry. */
  lemma SuffixAt(data: seq<u8>, p: nat, index: nat, suffix: seq<u8>)
    requires index < U32_LIMIT
    requires p + 5 + |suffix| <= |data| && data[p..p + 5 + |suffix|] == U32Bytes(index) + suffix + [0]
    ensures data[p + 4..p + 4 + |suffix|] == suffix && data[p + 4 + |suffix|] == 0
  {
    var enc := U32Bytes(index) + suffix + [0];
    var w := data[p..p + 5 + |suffix|];
    forall k | 0 <= k < |suffix| ensures data[p + 4 + k] == suffix[k] {
      assert data[p + 4 + k] == w[4 + k] == enc[4 + k];
    }
    assert data[p + 4..p + 4 + |suffix|] == suffix;
    assert data[p + 4 + |suffix|] == data[p..p + 5 + |suffix|][4 + |suffix|];
  }

  /**
   * Decoding an encoded blob replays its records: the paths are those the
   * records emit. Up to three trailing bytes are ignored.
   */
  lemma DecodeOfEncoding(recs: seq<Record>, tail: seq<u8>)
    requires AllWellFormed(recs)
    requires |tail| < 4
    ensures Decode(EncodeRecords(recs) + tail) == Ok(Run(Initial, recs).files)
  {
    var data := EncodeRecords(recs) + tail;
    assert data[0..] == data;
    EncodingIsStored(data, 0, recs, tail);
    DecodeOfStored(data, recs);
  }

  /** A blob holding stored records decodes to the paths they emit. */
  lemma DecodeOfStored(data: seq<u8>, recs: seq<Record>)
    requires StoredFrom(data, 0, recs)
    ensures Decode(data) == Ok(Run(Initial, recs).files)
  {
    RecordsOfStored(data, 0, recs);
  }

  // ---------------------------------------------------------------------
  // The records [0, 1 "Data/", 0, 1 "Mods.dat"], with the two names left open.

  /** The state machine part: palette entry `dir` in generation, then output entry 1 with `name`. */
  lemma ExampleRun(dir: Text, name: Text)
    ensures Run(Initial, [Toggle, Entry(1, dir), Toggle, Entry(1, name)]).files == [dir + name]
  {
    var recs := [Toggle, Entry(1, dir), Toggle, Entry(1, name)];
    assert recs[..3] == [Toggle, Entry(1, dir), Toggle];
    assert recs[..3][..2] == [Toggle, Entry(1, dir)];
    assert recs[..3][..2][..1] == [Toggle];
    assert [Toggle][..0] == [];
    assert Run(Initial, [Toggle]) == State(true, [], []);
    assert Run(Initial, [Toggle, Entry(1, dir)]) == State(true, [dir], []);
    assert Run(Initial, recs[..3]) == State(false, [dir], []);
  }

  /** A NUL-free ASCII name is a well-formed entry suffix. */
  lemma AsciiEntry(index: nat, name: Text)
    requires 0 < index < U32_LIMIT && Utf8.IsAscii(name)
    requires forall j :: 0 <= j < |name| ==> name[j] != 0
    ensures WellFormed(Entry(index, name))
  {
    Utf8.AsciiIsValid(name);
    NulFreeIndices(name);
  }

  /**
   * A palette entry in one generation phase, then an output entry that
   * refers to it: the blob decodes to the single path `dir + name`.
   */
  lemma PaletteExample(dir: Text, name: Text)
    requires WellFormed(Entry(1, dir)) && WellFormed(Entry(1, name))
    ensures Decode(EncodeRecords([Toggle, Entry(1, dir), Toggle, Entry(1, name)])) == Ok([dir + name])
  {
    var recs := [Toggle, Entry(1, dir), Toggle, Entry(1, name)];
    assert AllWellFormed(recs[3..]);
    assert AllWellFormed(recs[2..]);
    assert AllWellFormed(recs[1..]);
    DecodeOfEncoding(recs, []);
    assert EncodeRecords(recs) + [] == EncodeRecords(recs);
    ExampleRun(dir, name);
  }

  const DATA_DIR: Text := [68, 97, 116, 97, 47]                // "Data/"
  const MODS_NAME: Text := [77, 111, 100, 115, 46, 100, 97, 116]  // "Mods.dat"

  /** The blob [0, 1 "Data/", 0, 1 "Mods.dat"] decodes to the single path "Data/Mods.dat". */
  lemma ModsDatPalette()
    ensures Decode(EncodeRecords([Toggle, Entry(1, DATA_DIR), Toggle, Entry(1, MODS_NAME)]))
      == Ok([DATA_DIR + MODS_NAME])
  {
    AsciiEntry(1, DATA_DIR);
    AsciiEntry(1, MODS_NAME);
    PaletteExample(DATA_DIR, MODS_NAME);
  }
}
