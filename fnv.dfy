/**
 * The FNV-1a hashes of fnvhash.c. The hash starts at the offset basis and
 * every byte is XORed into it and the result multiplied by the FNV prime,
 * modulo 2^32 or 2^64 (bit-vector arithmetic wraps around in the same way
 * as C's unsigned arithmetic).
 */
module Fnv {

  /** The 32-bit FNV offset basis and prime. */
  const FNV32_BASIS: bv32 := 0x811c9dc5
  const FNV32_PRIME: bv32 := 16777619

  /** The 64-bit FNV offset basis and prime. */
  const FNV64_BASIS: bv64 := 0xcbf29ce484222325
  const FNV64_PRIME: bv64 := 1099511628211

  /** One round of the 32-bit hash: XOR the byte in, multiply by the prime. */
  function Step32(hash: bv32, b: bv8): bv32
  {
    (hash ^ (b as bv32)) * FNV32_PRIME
  }

  /** One round of the 64-bit hash. */
  function Step64(hash: bv64, b: bv8): bv64
  {
    (hash ^ (b as bv64)) * FNV64_PRIME
  }

  /** The 32-bit hash state after the bytes of s, starting from hash. */
  function HashFrom32(hash: bv32, s: seq<bv8>): bv32
    decreases |s|
  {
    if s == [] then hash else HashFrom32(Step32(hash, s[0]), s[1..])
  }

  /** The 64-bit hash state after the bytes of s, starting from hash. */
  function HashFrom64(hash: bv64, s: seq<bv8>): bv64
    decreases |s|
  {
    if s == [] then hash else HashFrom64(Step64(hash, s[0]), s[1..])
  }

  /** The 32-bit FNV-1a hash of s. */
  function Hash32(s: seq<bv8>): bv32
  {
    HashFrom32(FNV32_BASIS, s)
  }

  /** The 64-bit FNV-1a hash of s. */
  function Hash64(s: seq<bv8>): bv64
  {
    HashFrom64(FNV64_BASIS, s)
  }

  /** Hashing a + b is hashing b from the state a leaves: the hash can be computed in pieces. */
  lemma {:induction false} HashFrom32Append(hash: bv32, a: seq<bv8>, b: seq<bv8>)
    ensures HashFrom32(hash, a + b) == HashFrom32(HashFrom32(hash, a), b)
    decreases |a|
  {
    if a != [] {
      assert (a + b)[1..] == a[1..] + b;
      HashFrom32Append(Step32(hash, a[0]), a[1..], b);
    } else {
      assert a + b == b;
    }
  }

  /** The 64-bit counterpart of HashFrom32Append. */
  lemma {:induction false} HashFrom64Append(hash: bv64, a: seq<bv8>, b: seq<bv8>)
    ensures HashFrom64(hash, a + b) == HashFrom64(HashFrom64(hash, a), b)
    decreases |a|
  {
    if a != [] {
      assert (a + b)[1..] == a[1..] + b;
      HashFrom64Append(Step64(hash, a[0]), a[1..], b);
    } else {
      assert a + b == b;
    }
  }

  /**
   * The hash is a left fold: the hash of s + [b] is one round with b
   * applied to the hash of s, and the empty input hashes to the basis.
   */
  lemma Hash32Snoc(s: seq<bv8>, b: bv8)
    ensures Hash32([]) == FNV32_BASIS
    ensures Hash32(s + [b]) == Step32(Hash32(s), b)
  {
    HashFrom32Append(FNV32_BASIS, s, [b]);
  }

  /** The 64-bit counterpart of Hash32Snoc. */
  lemma Hash64Snoc(s: seq<bv8>, b: bv8)
    ensures Hash64([]) == FNV64_BASIS
    ensures Hash64(s + [b]) == Step64(Hash64(s), b)
  {
    HashFrom64Append(FNV64_BASIS, s, [b]);
  }

  /** fnv32: the 32-bit hash of the first n bytes of buf. */
  method Fnv32(buf: array<bv8>, n: nat) returns (hash: bv32)
    requires n <= buf.Length
    ensures hash == Hash32(buf[..n])
  {
    hash := FNV32_BASIS;
    for i := 0 to n
      invariant hash == Hash32(buf[..i])
    {
      Hash32Snoc(buf[..i], buf[i]);
      assert buf[..i + 1] == buf[..i] + [buf[i]];
      hash := Step32(hash, buf[i]);
    }
  }

  /** fnv64: the 64-bit hash of the first n bytes of buf. */
  method Fnv64(buf: array<bv8>, n: nat) returns (hash: bv64)
    requires n <= buf.Length
    ensures hash == Hash64(buf[..n])
  {
    hash := FNV64_BASIS;
    for i := 0 to n
      invariant hash == Hash64(buf[..i])
    {
      Hash64Snoc(buf[..i], buf[i]);
      assert buf[..i + 1] == buf[..i] + [buf[i]];
      hash := Step64(hash, buf[i]);
    }
  }

  /** The bytes of the ASCII string "Hello world!". */
  const HELLO_WORLD: seq<bv8> := [0x48, 0x65, 0x6c, 0x6c, 0x6f, 0x20, 0x77, 0x6f, 0x72, 0x6c, 0x64, 0x21]

  /** The test vector of the 32-bit hash. */
  lemma HelloWorld32()
    ensures Hash32(HELLO_WORLD) == 0x7a78f512
  {
  }

  /** The test vector of the 64-bit hash. */
  lemma HelloWorld64()
    ensures Hash64(HELLO_WORLD) == 0x9e527e14572072d2
  {
  }
}
