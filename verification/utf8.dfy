/**
 * Well-formed UTF-8, as `str::from_utf8` and `String::from_utf8` accept it:
 * the byte sequences of table 3-7 of the Unicode Standard (no overlong
 * forms, no surrogates, nothing above U+10FFFF), recognised one byte at a
 * time.
 */
module Utf8 {
  import opened Wire

  /**
   * What the recogniser expects next: the start of a sequence, or `count`
   * more continuation bytes of which the next lies in `lo..hi`.
   */
  datatype Expect = Boundary | Continue(count: nat, lo: u8, hi: u8)

  /** The state after byte `b`, or `None` when `b` cannot come next. */
  function Next(e: Expect, b: u8): Option<Expect> {
    match e
    case Boundary =>
      if b <= 0x7F then Some(Boundary)
      else if 0xC2 <= b <= 0xDF then Some(Continue(1, 0x80, 0xBF))
      else if b == 0xE0 then Some(Continue(2, 0xA0, 0xBF))
      else if 0xE1 <= b <= 0xEC || 0xEE <= b <= 0xEF then Some(Continue(2, 0x80, 0xBF))
      else if b == 0xED then Some(Continue(2, 0x80, 0x9F))
      else if b == 0xF0 then Some(Continue(3, 0x90, 0xBF))
      else if 0xF1 <= b <= 0xF3 then Some(Continue(3, 0x80, 0xBF))
      else if b == 0xF4 then Some(Continue(3, 0x80, 0x8F))
      else None
    case Continue(count, lo, hi) =>
      if lo <= b <= hi then Some(if count <= 1 then Boundary else Continue(count - 1, 0x80, 0xBF))
      else None
  }

  /** The state after all of `s`, starting from `e`; `None` once a byte is rejected. */
  function Scan(s: seq<u8>, e: Expect): Option<Expect>
    decreases |s|
  {
    if s == [] then Some(e)
    else
      match Next(e, s[0])
      case None => None
      case Some(after) => Scan(s[1..], after)
  }

  /** `s` is a concatenation of well-formed UTF-8 sequences. */
  predicate Valid(s: seq<u8>) {
    Scan(s, Boundary) == Some(Boundary)
  }

  predicate IsAscii(s: seq<u8>) {
    forall i :: 0 <= i < |s| ==> s[i] < 0x80
  }

  /** Scanning a concatenation scans the second part from where the first left off. */
  lemma {:induction false} ScanAppend(a: seq<u8>, b: seq<u8>, e: Expect)
    ensures Scan(a + b, e) == match Scan(a, e) case None => None case Some(mid) => Scan(b, mid)
    decreases |a|
  {
    if a == [] {
      assert a + b == b;
    } else {
      assert (a + b)[0] == a[0];
      assert (a + b)[1..] == a[1..] + b;
      match Next(e, a[0])
      case None =>
      case Some(after) => ScanAppend(a[1..], b, after);
    }
  }

  /** Every ASCII byte string is valid UTF-8. */
  lemma {:induction false} AsciiIsValid(s: seq<u8>)
    requires IsAscii(s)
    ensures Valid(s)
    decreases |s|
  {
    if s != [] {
      AsciiIsValid(s[1..]);
    }
  }

  /** Well-formed UTF-8 stays well-formed when followed by more well-formed UTF-8. */
  lemma ValidConcat(a: seq<u8>, b: seq<u8>)
    requires Valid(a) && Valid(b)
    ensures Valid(a + b)
  {
    ScanAppend(a, b, Boundary);
  }
}
