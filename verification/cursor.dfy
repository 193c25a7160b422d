/**
 * A read cursor over a byte slice (the `std::io::Cursor` plus `byteorder`
 * reads that src/reader.rs and src/lib.rs use), and `read_utf8`, which both
 * files define identically.
 */
module Cursors {
  import opened Wire
  import Utf8

  class Cursor {
    const data: seq<u8>
    var pos: nat

    constructor (data: seq<u8>)
      ensures this.data == data && pos == 0
    {
      this.data := data;
      pos := 0;
    }

    /** `read_u8`: fails once the position is at or past the end. */
    method ReadU8() returns (r: Result<u8>)
      modifies this
      ensures old(pos) < |data| ==> r == Ok(data[old(pos)]) && pos == old(pos) + 1
      ensures old(pos) >= |data| ==> r == Err(EndOfStream) && pos == old(pos)
    {
      if pos < |data| {
        r := Ok(data[pos]);
        pos := pos + 1;
      } else {
        r := Err(EndOfStream);
      }
    }

    /** `read_u32::<LittleEndian>`. */
    method ReadU32() returns (r: Result<nat>)
      modifies this
      ensures old(pos) + 4 <= |data| ==> r == Ok(LeU32(data, old(pos))) && pos == old(pos) + 4
      ensures old(pos) + 4 > |data| ==> r == Err(EndOfStream) && pos == old(pos)
    {
      if pos + 4 <= |data| {
        r := Ok(LeU32(data, pos));
        pos := pos + 4;
      } else {
        r := Err(EndOfStream);
      }
    }

    /** `read_u64::<LittleEndian>`. */
    method ReadU64() returns (r: Result<nat>)
      modifies this
      ensures old(pos) + 8 <= |data| ==> r == Ok(LeU64(data, old(pos))) && pos == old(pos) + 8
      ensures old(pos) + 8 > |data| ==> r == Err(EndOfStream) && pos == old(pos)
    {
      if pos + 8 <= |data| {
        r := Ok(LeU64(data, pos));
        pos := pos + 8;
      } else {
        r := Err(EndOfStream);
      }
    }

    /** `n` successive `read_u8` calls, collected. */
    method ReadBytes(n: nat) returns (r: Result<seq<u8>>)
      modifies this
      ensures old(pos) + n <= |data| ==> r == Ok(data[old(pos)..old(pos) + n]) && pos == old(pos) + n
      ensures n == 0 ==> r == Ok([]) && pos == old(pos)
      ensures n > 0 && old(pos) + n > |data| ==> r == Err(EndOfStream)
    {
      var bytes: seq<u8> := [];
      for i := 0 to n
        invariant pos == old(pos) + i
        invariant i > 0 ==> pos <= |data| && bytes == data[old(pos)..pos]
        invariant i == 0 ==> bytes == []
      {
        var b :- ReadU8();
        bytes := bytes + [b];
      }
      r := Ok(bytes);
    }

    /** `set_position`: any position may be set, even one past the end. */
    method SetPosition(p: nat)
      modifies this
      ensures pos == p
    {
      pos := p;
    }
  }

  /** What `read_u32::<LittleEndian>` at position `p` yields. */
  function U32At(data: seq<u8>, p: nat): (r: Result<nat>)
    ensures r.Ok? <==> p + 4 <= |data|
    ensures r.Ok? ==> r.value == LeU32(data, p) < U32_LIMIT
    ensures r.Err? ==> r == Err(EndOfStream)
  {
    if p + 4 <= |data| then Ok(LeU32(data, p)) else Err(EndOfStream)
  }

  /** What `read_u64::<LittleEndian>` at position `p` yields. */
  function U64At(data: seq<u8>, p: nat): (r: Result<nat>)
    ensures r.Ok? <==> p + 8 <= |data|
    ensures r.Ok? ==> r.value == LeU64(data, p) < U64_LIMIT
    ensures r.Err? ==> r == Err(EndOfStream)
  {
    if p + 8 <= |data| then Ok(LeU64(data, p)) else Err(EndOfStream)
  }

  /** The position of the first NUL byte at or after `from`, if any. */
  function NulFrom(data: seq<u8>, from: nat): (r: Option<nat>)
    ensures r.Some? ==> from <= r.value < |data| && data[r.value] == 0
    ensures r.Some? ==> forall j :: from <= j < r.value ==> data[j] != 0
    ensures r.None? <==> forall j :: from <= j < |data| ==> data[j] != 0
    decreases |data| - from
  {
    if from >= |data| then None
    else if data[from] == 0 then Some(from)
    else NulFrom(data, from + 1)
  }

  /**
   * The NUL-terminated string at `from`: its bytes before the NUL and the
   * position just past the NUL.
   */
  function CString(data: seq<u8>, from: nat): (r: Result<(seq<u8>, nat)>)
    ensures r.Ok? ==> from < r.value.1 <= |data| && Utf8.Valid(r.value.0)
    ensures r.Err? ==> r.failure == EndOfStream || r.failure == InvalidUtf8
  {
    match NulFrom(data, from)
    case None => Err(EndOfStream)
    case Some(k) =>
      var text := data[from..k];
      if Utf8.Valid(text) then Ok((text, k + 1)) else Err(InvalidUtf8)
  }

  /**
   * A string read is the NUL-free UTF-8 bytes up to the first NUL, and the
   * position just past that NUL; it runs out of bytes exactly when no NUL
   * follows `from`.
   */
  lemma CStringShape(data: seq<u8>, from: nat)
    ensures var r := CString(data, from);
      r.Ok? ==> var (text, next) := r.value;
      && next == from + |text| + 1 <= |data|
      && data[from..next - 1] == text
      && data[next - 1] == 0
      && (forall j :: 0 <= j < |text| ==> text[j] != 0)
      && Utf8.Valid(text)
    ensures CString(data, from) == Err(EndOfStream) <==> forall j :: from <= j < |data| ==> data[j] != 0
  {
    var r := CString(data, from);
    if r.Ok? {
      var k := NulFrom(data, from).value;
      assert data[from..k] == r.value.0;
      forall j | 0 <= j < k - from ensures r.value.0[j] != 0 {
        assert r.value.0[j] == data[from + j];
      }
    }
  }

  /**
   * `read_utf8`: read bytes up to and including the first NUL and return
   * those before it. Running out of bytes first is the `read_u8().unwrap()`
   * failure; bytes that are not UTF-8 are the caller's `.unwrap()` failure.
   */
  method ReadUtf8(c: Cursor) returns (r: Result<seq<u8>>)
    modifies c
    ensures match CString(c.data, old(c.pos))
      case Ok((text, next)) => r == Ok(text) && c.pos == next
      case Err(f) => r == Err(f)
  {
    ghost var start := c.pos;
    var raw: seq<u8> := [];
    while true
      invariant c.pos == start + |raw|
      invariant raw != [] ==> c.pos <= |c.data| && raw == c.data[start..c.pos]
      invariant forall j :: 0 <= j < |raw| ==> raw[j] != 0
      decreases if c.pos <= |c.data| then |c.data| - c.pos else 0
    {
      var b := c.ReadU8();
      if b.Err? {
        NoNulUntilEnd(c.data, start, raw);
        return Err(EndOfStream);
      }
      if b.value == 0 {
        break;
      }
      raw := raw + [b.value];
    }
    assert c.data[start..c.pos - 1] == raw;
    forall j | start <= j < c.pos - 1 ensures c.data[j] != 0 {
      assert c.data[j] == raw[j - start];
    }
    NulAfter(c.data, start, c.pos - 1);
    if !Utf8.Valid(raw) {
      return Err(InvalidUtf8);
    }
    return Ok(raw);
  }

  lemma NoNulUntilEnd(data: seq<u8>, start: nat, raw: seq<u8>)
    requires start + |raw| >= |data|
    requires raw != [] ==> start + |raw| <= |data| && raw == data[start..start + |raw|]
    requires forall j :: 0 <= j < |raw| ==> raw[j] != 0
    ensures NulFrom(data, start).None?
  {
    forall j | start <= j < |data| ensures data[j] != 0 {
      assert data[j] == raw[j - start];
    }
  }

  lemma {:induction false} NulAfter(data: seq<u8>, from: nat, k: nat)
    requires from <= k < |data| && data[k] == 0
    requires forall j :: from <= j < k ==> data[j] != 0
    ensures NulFrom(data, from) == Some(k)
    decreases k - from
  {
    if from < k {
      NulAfter(data, from + 1, k);
    }
  }

  /**
   * A NUL-free UTF-8 string stored at `from` and followed by a NUL reads
   * back as itself, with the position just past the NUL.
   */
  lemma CStringOfText(data: seq<u8>, from: nat, text: seq<u8>)
    requires from + |text| < |data|
    requires data[from..from + |text|] == text && data[from + |text|] == 0
    requires forall j :: 0 <= j < |text| ==> text[j] != 0
    requires Utf8.Valid(text)
    ensures CString(data, from) == Ok((text, from + |text| + 1))
  {
    NulEndsText(data, from, text);
    assert data[from..from + |text|] == text;
  }

  lemma NulEndsText(data: seq<u8>, from: nat, text: seq<u8>)
    requires from + |text| < |data|
    requires data[from..from + |text|] == text && data[from + |text|] == 0
    requires forall j :: 0 <= j < |text| ==> text[j] != 0
    ensures NulFrom(data, from) == Some(from + |text|)
  {
    var k := from + |text|;
    forall j | from <= j < k ensures data[j] != 0 {
      assert data[j] == text[j - from];
    }
    NulAfter(data, from, k);
  }

  /** No byte of `s` is NUL. */
  predicate NulFree(s: seq<u8>)
    decreases |s|
  {
    s == [] || (s[0] != 0 && NulFree(s[1..]))
  }

  /** `NulFree` says, byte by byte, that no byte is NUL. */
  lemma {:induction false} NulFreeIndices(s: seq<u8>)
    ensures NulFree(s) <==> forall j :: 0 <= j < |s| ==> s[j] != 0
    decreases |s|
  {
    if s != [] {
      NulFreeIndices(s[1..]);
      assert forall j :: 1 <= j < |s| ==> s[j] == s[1..][j - 1];
    }
  }
}
