/**
 * The path hasher of src/util.rs: 64-bit FNV-1a, and the key of a logical
 * path, which is FNV-1a over the lower-cased path followed by the salt "++".
 */
module Util {
  import opened Wire

  const FNV_PRIME: nat := 1099511628211
  const FNV_OFFSET_BASIS: nat := 14695981039346656037

  /** A 64-bit hash value. */
  type Hash = h: nat | h < U64_LIMIT

  /**
   * `hash ^ (b as u64)`: a byte zero-extended to 64 bits only reaches the low
   * eight bits of the hash.
   */
  function XorByte(hash: Hash, b: u8): Hash {
    hash - hash % 256 + (((hash % 256) as bv8 ^ b as bv8) as nat)
  }

  /** `hash.wrapping_mul(FNV_PRIME)`. */
  function WrappingMulPrime(hash: Hash): Hash {
    hash * FNV_PRIME % U64_LIMIT
  }

  /** One FNV-1a round: XOR the byte in, then multiply (mod 2^64). */
  function Step(hash: Hash, b: u8): Hash {
    WrappingMulPrime(XorByte(hash, b))
  }

  /** The rounds of `data`, applied left to right, starting from `hash`. */
  function Fold(hash: Hash, data: seq<u8>): Hash
    decreases |data|
  {
    if data == [] then hash else Step(Fold(hash, data[..|data| - 1]), data[|data| - 1])
  }

  /** 64-bit FNV-1a. */
  function Fnv1a(data: seq<u8>): Hash {
    Fold(FNV_OFFSET_BASIS, data)
  }

  /** Hashing is a left fold: the hash of `a + b` continues from the hash of `a`. */
  lemma {:induction false} FoldAppend(hash: Hash, a: seq<u8>, b: seq<u8>)
    ensures Fold(hash, a + b) == Fold(Fold(hash, a), b)
    decreases |b|
  {
    if b == [] {
      assert a + b == a;
    } else {
      var ab := a + b;
      assert ab[..|ab| - 1] == a + b[..|b| - 1];
      FoldAppend(hash, a, b[..|b| - 1]);
    }
  }

  /** `hash_fnv1a`: the loop over the bytes of `data`. */
  method HashFnv1a(data: seq<u8>) returns (hash: Hash)
    ensures hash == Fnv1a(data)
    ensures data == [] ==> hash == 14695981039346656037
  {
    hash := FNV_OFFSET_BASIS;
    for i := 0 to |data|
      invariant hash == Fold(FNV_OFFSET_BASIS, data[..i])
    {
      assert data[..i + 1][..i] == data[..i];
      hash := XorByte(hash, data[i]);
      hash := WrappingMulPrime(hash);
    }
    assert data[..|data|] == data;
  }

  const SALT: seq<u8> := [43, 43]  // "++"

  predicate IsUpper(b: u8) {
    65 <= b <= 90
  }

  /** ASCII lower-casing of one byte; every other byte is kept. */
  function LowerByte(b: u8): u8 {
    if IsUpper(b) then b + 32 else b
  }

  /** ASCII lower-casing of a byte string. */
  function AsciiLower(s: seq<u8>): (r: seq<u8>)
    ensures |r| == |s|
    ensures forall i :: 0 <= i < |r| ==> !IsUpper(r[i])
    ensures forall i :: 0 <= i < |s| && !IsUpper(s[i]) ==> r[i] == s[i]
    ensures forall i :: 0 <= i < |s| && IsUpper(s[i]) ==> r[i] == s[i] + 32
  {
    seq(|s|, i requires 0 <= i < |s| => LowerByte(s[i]))
  }

  /** Lower-casing twice is lower-casing once. */
  lemma AsciiLowerIdempotent(s: seq<u8>)
    ensures AsciiLower(AsciiLower(s)) == AsciiLower(s)
  {
  }

  /**
   * `filepath_hash`: the key under which the file table stores a logical
   * path. It is the hash of the lower-cased path continued over the two
   * salt bytes.
   */
  function FilepathHash(path: seq<u8>): (r: Hash)
    ensures r == Step(Step(Fnv1a(AsciiLower(path)), 43), 43)
  {
    FoldAppend(FNV_OFFSET_BASIS, AsciiLower(path), SALT);
    assert SALT[..1] == [43];
    assert [43][..0] == [];
    Fnv1a(AsciiLower(path) + SALT)
  }

  /** Paths that differ only in ASCII case have the same key. */
  lemma FilepathHashIgnoresCase(path: seq<u8>, other: seq<u8>)
    requires AsciiLower(path) == AsciiLower(other)
    ensures FilepathHash(path) == FilepathHash(other)
  {
  }

  /** A path and its lower-cased form have the same key. */
  lemma FilepathHashOfLowered(path: seq<u8>)
    ensures FilepathHash(path) == FilepathHash(AsciiLower(path))
  {
    AsciiLowerIdempotent(path);
  }

  const MODS_DAT: seq<u8> := [68, 97, 116, 97, 47, 77, 111, 100, 115, 46, 100, 97, 116]        // "Data/Mods.dat"
  const MODS_DAT_LOWER: seq<u8> := [100, 97, 116, 97, 47, 109, 111, 100, 115, 46, 100, 97, 116]  // "data/mods.dat"

  lemma ModsDatLowered()
    ensures AsciiLower(MODS_DAT) == MODS_DAT_LOWER
  {
  }

  /** "Data/Mods.dat" and "data/mods.dat" name the same file table entry. */
  lemma ModsDatKeyIgnoresCase()
    ensures FilepathHash(MODS_DAT) == FilepathHash(MODS_DAT_LOWER)
  {
    ModsDatLowered();
    FilepathHashOfLowered(MODS_DAT);
  }
}
