/**
 * Bytes, little-endian integers and the failure outcomes of the bundle
 * decoder. Every `.unwrap()` in the reader that can fail, and every slice
 * taken out of range, aborts the program; here each of those becomes an
 * `Err` carrying the reason.
 */
module Wire {

  newtype u8 = x: int | 0 <= x < 256

  const U32_LIMIT: nat := 0x1_0000_0000
  const U64_LIMIT: nat := 0x1_0000_0000_0000_0000

  /** Byte strings: names, paths and blobs as the reader handles them. */
  type Text = seq<u8>

  /** Why a decode stopped. */
  datatype Failure =
    | EndOfStream        // a cursor read ran past the end of its bytes
    | SliceOutOfRange    // a slice or index went past the end of a buffer
    | UnknownBundle      // a file record names a bundle id that was never read
    | InvalidUtf8        // a name or path is not well-formed UTF-8
    | NoSuchFile         // a path lookup missed where the caller unwraps it
    | ReadFailed         // the bytes of a bundle could not be fetched
    | CapacityOverflow   // a buffer was asked to hold more than isize::MAX bytes

  /** The outcome of a decoding step; usable with `:-`. */
  datatype Result<+T> = Ok(value: T) | Err(failure: Failure) {
    predicate IsFailure() {
      Err?
    }

    function PropagateFailure<U>(): Result<U>
      requires Err?
    {
      Err(failure)
    }

    function Extract(): T
      requires Ok?
    {
      value
    }
  }

  datatype Option<+T> = None | Some(value: T)

  /** The unsigned 32-bit little-endian integer stored at `s[p..p + 4]`. */
  function LeU32(s: seq<u8>, p: nat): (v: nat)
    requires p + 4 <= |s|
    ensures v < U32_LIMIT
  {
    s[p] as nat + 0x100 * (s[p + 1] as nat) + 0x1_0000 * (s[p + 2] as nat) + 0x100_0000 * (s[p + 3] as nat)
  }

  /** The unsigned 64-bit little-endian integer stored at `s[p..p + 8]`. */
  function LeU64(s: seq<u8>, p: nat): (v: nat)
    requires p + 8 <= |s|
    ensures v < U64_LIMIT
  {
    LeU32(s, p) + U32_LIMIT * LeU32(s, p + 4)
  }

  /** The four little-endian bytes of `v`. */
  function U32Bytes(v: nat): (b: seq<u8>)
    requires v < U32_LIMIT
    ensures |b| == 4
  {
    var q1 := v / 0x100;
    var q2 := q1 / 0x100;
    [(v % 0x100) as u8, (q1 % 0x100) as u8, (q2 % 0x100) as u8, (q2 / 0x100) as u8]
  }

  /** The eight little-endian bytes of `v`. */
  function U64Bytes(v: nat): (b: seq<u8>)
    requires v < U64_LIMIT
    ensures |b| == 8
  {
    U32Bytes(v % U32_LIMIT) + U32Bytes(v / U32_LIMIT)
  }

  /** Reading a 32-bit integer back from its encoding, wherever it sits, gives the integer. */
  lemma LeU32OfBytes(pre: seq<u8>, v: nat, post: seq<u8>)
    requires v < U32_LIMIT
    ensures LeU32(pre + U32Bytes(v) + post, |pre|) == v
  {
    var s := pre + U32Bytes(v) + post;
    var p := |pre|;
    var q1 := v / 0x100;
    var q2 := q1 / 0x100;
    assert v == v % 0x100 + 0x100 * q1;
    assert q1 == q1 % 0x100 + 0x100 * q2;
    assert q2 == q2 % 0x100 + 0x100 * (q2 / 0x100);
    assert s[p] as nat == v % 0x100;
    assert s[p + 1] as nat == q1 % 0x100;
    assert s[p + 2] as nat == q2 % 0x100;
    assert s[p + 3] as nat == q2 / 0x100;
  }

  /** Reading a 64-bit integer back from its encoding, wherever it sits, gives the integer. */
  lemma LeU64OfBytes(pre: seq<u8>, v: nat, post: seq<u8>)
    requires v < U64_LIMIT
    ensures LeU64(pre + U64Bytes(v) + post, |pre|) == v
  {
    var lo, hi := v % U32_LIMIT, v / U32_LIMIT;
    var s := pre + U64Bytes(v) + post;
    assert s == pre + U32Bytes(lo) + (U32Bytes(hi) + post);
    LeU32OfBytes(pre, lo, U32Bytes(hi) + post);
    assert s == (pre + U32Bytes(lo)) + U32Bytes(hi) + post;
    LeU32OfBytes(pre + U32Bytes(lo), hi, post);
  }
}
