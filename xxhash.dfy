/**
 * The 64-bit mixing hash `XXHash64(input, length, seed)` of the engine's
 * third-party directory. Despite its name it is not the xxHash64
 * algorithm: it folds 8-byte little-endian words, then the remaining bytes,
 * into a seeded state with one multiplier, and finishes with a
 * shift-xor-multiply. All arithmetic is on `uint64_t`, so it wraps modulo
 * 2^64, as `bv64` arithmetic does.
 */
module XxHash {
  /** The multiplier used by every mixing step. */
  const Prime: bv64 := 0x9DDF_EA08_EB38_2D69
  /** Added to the seed to form the initial state. */
  const Golden: bv64 := 0x9E37_79B9_7F4A_7C15

  /** The initial state `seed + 0x9E3779B97F4A7C15`, wrapping. */
  function Init(seed: bv64): bv64 { seed + Golden }

  /** `memcpy(&k, p, 8)` on a little-endian machine: byte `p` is the least significant. */

  function ReadWord(s: seq<bv8>, p: nat): bv64
    requires p + 8 <= |s|
  {
    (s[p] as bv64) | (s[p + 1] as bv64 << 8) | (s[p + 2] as bv64 << 16) | (s[p + 3] as bv64 << 24) |
    (s[p + 4] as bv64 << 32) | (s[p + 5] as bv64 << 40) | (s[p + 6] as bv64 << 48) | (s[p + 7] as bv64 << 56)
  }

  /** The 8 bytes of a `uint64_t` in memory, least significant first. */
  function LeBytes(v: bv64): (b: seq<bv8>)
    ensures |b| == 8
  {
    [(v & 0xFF) as bv8, ((v >> 8) & 0xFF) as bv8, ((v >> 16) & 0xFF) as bv8, ((v >> 24) & 0xFF) as bv8,
     ((v >> 32) & 0xFF) as bv8, ((v >> 40) & 0xFF) as bv8, ((v >> 48) & 0xFF) as bv8, (v >> 56) as bv8]
  }

  /** `k *= C; k ^= k >> 47; k *= C` */
  function MixWord(k: bv64): bv64 {
    var k1 := k * Prime;
    var k2 := k1 ^ (k1 >> 47);
    k2 * Prime
  }
  /** `hash ^= k; hash *= C` */
  function Fold(hash: bv64, k: bv64): bv64 { (hash ^ k) * Prime }

  /** One pass of the block loop, on the word read there. */
  function MixBlock(hash: bv64, k: bv64): bv64 { Fold(hash, MixWord(k)) }

  /** One pass of the tail loop: `hash ^= *p++; hash *= C`. */
  function MixByte(hash: bv64, b: bv8): bv64 { (hash ^ b as bv64) * Prime }

  /** The finaliser `hash ^= hash >> 47; hash *= C; hash ^= hash >> 47`. */
  function Finalize(hash: bv64): bv64 {
    var h1 := hash ^ (hash >> 47);
    var h2 := h1 * Prime;
    h2 ^ (h2 >> 47)
  }
  /** The state after the tail loop has taken the bytes from `p` on. */
  function AbsorbTail(hash: bv64, s: seq<bv8>, p: nat): bv64
    requires p <= |s|
    decreases |s| - p
  {
    if p == |s| then hash else AbsorbTail(MixByte(hash, s[p]), s, p + 1)
  }
  /** The state after both loops have taken the bytes from `p` on. */
  function Absorb(hash: bv64, s: seq<bv8>, p: nat): bv64
    requires p <= |s|
    decreases |s| - p
  {
    if |s| - p < 8 then AbsorbTail(hash, s, p) else Absorb(MixBlock(hash, ReadWord(s, p)), s, p + 8)
  }
  /**
   * The hash as a function of the bytes and the seed alone: the C code
   * keeps no other state, so equal inputs give equal hashes.
   */
  function Hash64(input: seq<bv8>, seed: bv64): bv64 {
    Finalize(Absorb(Init(seed), input, 0))
  }

  /**
   * `XXHash64`, with `length` the size of `input`. The block loop runs once
   * per whole 8-byte word and the tail loop once per byte left over; the
   * ghost results count their passes.
   */
  method XXHash64(input: seq<bv8>, seed: bv64) returns (hash: bv64, ghost blockPasses: nat, ghost tailPasses: nat)
    ensures hash == Hash64(input, seed)
    ensures blockPasses == |input| / 8 && tailPasses == |input| % 8
  {
    var p: nat := 0;
    var length: nat := |input|;
    hash := Init(seed);
    blockPasses, tailPasses := 0, 0;
    while length >= 8
      invariant p + length == |input| && p == 8 * blockPasses
      invariant Absorb(hash, input, p) == Absorb(Init(seed), input, 0)
    {
      var k := ReadWord(input, p);
      k := MixWord(k);
      hash := Fold(hash, k);
      p := p + 8;
      length := length - 8;
      blockPasses := blockPasses + 1;
    }
    Split(|input|, blockPasses, length);
    ghost var left := length;
    while length > 0
      invariant p + length == |input| && p == 8 * blockPasses + tailPasses
      invariant tailPasses + length == left
      invariant AbsorbTail(hash, input, p) == Absorb(Init(seed), input, 0)
    {
      hash := MixByte(hash, input[p]);
      p := p + 1;
      length := length - 1;
      tailPasses := tailPasses + 1;
    }
    hash := Finalize(hash);
  }

  /** Writing a length as `8 q + r` with `r < 8` gives its quotient and remainder by 8. */
  lemma Split(n: nat, q: nat, r: nat)
    requires n == 8 * q + r && r < 8
    ensures q == n / 8 && r == n % 8
  {
  }

  /** Reading back the bytes of a word gives the word. */
  lemma ReadLeBytes(v: bv64)
    ensures ReadWord(LeBytes(v), 0) == v
  {}

  /**
   * On the 8 bytes of one word, the block loop runs once on that word and
   * the tail loop not at all.
   */
  lemma HashOfWord(v: bv64, seed: bv64)
    ensures Hash64(LeBytes(v), seed) == Finalize(MixBlock(Init(seed), v))
  {
    var b := LeBytes(v);
    ReadLeBytes(v);
    assert Absorb(Init(seed), b, 0) == Absorb(MixBlock(Init(seed), v), b, 8);
    assert Absorb(MixBlock(Init(seed), v), b, 8) == MixBlock(Init(seed), v);
  }
}
