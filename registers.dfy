/**
 * The register array of the distinct-value sketch: which register a 64-bit
 * hash selects, the rank it records there, and what the whole array holds
 * after a sequence of hashes has been observed.
 *
 * All bit manipulation is done on `bv64`, as the C++ code does it on
 * `uint64_t`; shift amounts are bit-vectors too.
 */
module Registers {

  /** The precision the engine constructs its sketch with: `HyperLogLog hll(14)`. */
  const P: bv64 := 14
  /** `numRegisters = 1 << registerBits` */
  const M: nat := 16384
  /** The largest rank a register can hold, `64 - registerBits`. */
  const MaxRank: u8 := 50

  /** `uint8_t`, the type of one register. */
  newtype u8 = x: int | 0 <= x < 256

  /** Bit `j` of `x` is set. */
  predicate Bit(x: bv64, j: bv64)
    requires j < 64
  {
    (x >> j) & 1 != 0
  }

  /** Every bit of `x` below position `n` is clear. */
  predicate LowZero(x: bv64, n: bv64)
    requires n <= 64
  {
    x & ((1 << n) - 1) == 0
  }

  /**
   * `__builtin_ctzll`: the number of trailing zero bits of a non-zero word,
   * i.e. the position of its lowest set bit (undefined for 0, hence the
   * precondition).
   */
  function Ctz(x: bv64): (r: bv64)
    requires x != 0
    ensures r < 64 && Bit(x, r) && LowZero(x, r)
  {
    var z0 := x & 0xFFFF_FFFF == 0;
    var x0 := if z0 then x >> 32 else x;
    var z1 := x0 & 0xFFFF == 0;
    var x1 := if z1 then x0 >> 16 else x0;
    var z2 := x1 & 0xFF == 0;
    var x2 := if z2 then x1 >> 8 else x1;
    var z3 := x2 & 0xF == 0;
    var x3 := if z3 then x2 >> 4 else x2;
    var z4 := x3 & 0x3 == 0;
    var x4 := if z4 then x3 >> 2 else x3;
    var z5 := x4 & 0x1 == 0;
    (if z0 then 32 else 0) + (if z1 then 16 else 0) + (if z2 then 8 else 0) +
    (if z3 then 4 else 0) + (if z4 then 2 else 0) + (if z5 then 1 else 0)
  }

  /** `1ULL << (64 - registerBits)`: the guard bit just above the rank bits. */
  function Sentinel(p: bv64): bv64
    requires 1 <= p <= 30
  {
    1 << (64 - p)
  }

  /** `std::min(64 - registerBits, 1 + c)` */
  function CapRank(c: bv64, p: bv64): (r: bv64)
    requires 1 <= p <= 30
    ensures r <= 64 - p
  {
    if 64 - p < 1 + c then 64 - p else 1 + c
  }

  /**
   * The trailing-zero count of `h | sentinel`, capped, tells about `h` itself:
   * the `rank - 1` low bits of `h` are clear, and unless the cap was reached,
   * the next bit is set.
   */
  lemma CapRankMeaning(h: bv64, p: bv64, c: bv64)
    requires 1 <= p <= 30
    requires c < 64 && Bit(h | Sentinel(p), c) && LowZero(h | Sentinel(p), c)
    ensures 1 <= CapRank(c, p) <= 64 - p
    ensures LowZero(h, CapRank(c, p) - 1)
    ensures CapRank(c, p) < 64 - p ==> Bit(h, CapRank(c, p) - 1)
  {
  }

  /** The register a hash selects: its top `p` bits, `hash >> (64 - registerBits)`. */
  function Index(h: bv64, p: bv64): (r: bv64)
    requires 1 <= p <= 30
    ensures r < 1 << p
  {
    h >> (64 - p)
  }

  /**
   * Two hashes select the same register exactly when they differ only in
   * their low `64 - p` bits, i.e. when their top `p` bits agree.
   */
  lemma SameIndexIffSameTopBits(h1: bv64, h2: bv64)
    ensures Index(h1, P) == Index(h2, P) <==> (h1 ^ h2) < Sentinel(P)
  {
  }

  /**
   * `std::min(64 - registerBits, 1 + __builtin_ctzll(hash | (1ULL << (64 - registerBits))))`.
   * The sentinel makes the argument of `Ctz` non-zero, so the rank is always
   * defined; it is one more than the number of trailing zeros of the hash,
   * capped at `64 - p`.
   */
  function Rank(h: bv64, p: bv64): (r: bv64)
    requires 1 <= p <= 30
    ensures 1 <= r <= 64 - p
    ensures LowZero(h, r - 1)
    ensures r < 64 - p ==> Bit(h, r - 1)
  {
    var c := Ctz(h | Sentinel(p));
    CapRankMeaning(h, p, c);
    CapRank(c, p)
  }

  /** The register a hash selects at the engine's precision, as an array index. */
  function Slot(h: bv64): (i: nat)
    ensures i < M
  {
    Index(h, P) as int
  }

  /** The rank at the engine's precision, narrowed to the `uint8_t` a register holds. */
  function RankByte(h: bv64): (r: u8)
    ensures 1 <= r <= MaxRank
  {
    Rank(h, P) as int as u8
  }

  function Max(a: u8, b: u8): u8 {
    if a < b then b else a
  }

  /** The register array as constructed and after `reset`: every register 0. */
  function Empty(): (r: seq<u8>)
    ensures |r| == M
  {
    seq(M, _ => 0)
  }

  /** Raising register `i` to at least `v`. */
  function Raise(regs: seq<u8>, i: nat, v: u8): (r: seq<u8>)
    requires |regs| == M && i < M
    ensures |r| == M
  {
    regs[i := Max(regs[i], v)]
  }

  /** Register `i` ends at the larger of its value and `v`; every other register is kept. */
  lemma RaiseEffect(regs: seq<u8>, i: nat, v: u8)
    requires |regs| == M && i < M
    ensures Raise(regs, i, v)[i] == Max(regs[i], v)
    ensures forall j :: 0 <= j < M ==> regs[j] <= Raise(regs, i, v)[j]
    ensures forall j :: 0 <= j < M && j != i ==> Raise(regs, i, v)[j] == regs[j]
  {
  }

  /** `registers[idx] = std::max(registers[idx], rank)` for the register and rank of a hash. */
  function Observe(regs: seq<u8>, h: bv64): (r: seq<u8>)
    requires |regs| == M
    ensures |r| == M
  {
    Raise(regs, Slot(h), RankByte(h))
  }

  /**
   * Observing a hash raises its own register to at least its rank and
   * leaves every other register as it was.
   */
  lemma ObserveEffect(regs: seq<u8>, h: bv64)
    requires |regs| == M
    ensures Observe(regs, h)[Slot(h)] == Max(regs[Slot(h)], RankByte(h))
    ensures forall i :: 0 <= i < M ==> regs[i] <= Observe(regs, h)[i]
    ensures forall i :: 0 <= i < M && i != Slot(h) ==> Observe(regs, h)[i] == regs[i]
  {
    RaiseEffect(regs, Slot(h), RankByte(h));
  }

  /** Observing the same hash twice is the same as observing it once. */
  lemma ObserveIdempotent(regs: seq<u8>, h: bv64)
    requires |regs| == M
    ensures Observe(Observe(regs, h), h) == Observe(regs, h)
  {
  }

  /** Observing a hash whose rank its register already reaches changes nothing. */
  lemma ObserveAbsorbed(regs: seq<u8>, h: bv64)
    requires |regs| == M && regs[Slot(h)] >= RankByte(h)
    ensures Observe(regs, h) == regs
  {
  }

  /** Raising two registers, in either order, gives the same array. */
  lemma RaiseCommutes(regs: seq<u8>, i1: nat, v1: u8, i2: nat, v2: u8)
    requires |regs| == M && i1 < M && i2 < M
    ensures Raise(Raise(regs, i1, v1), i2, v2) == Raise(Raise(regs, i2, v2), i1, v1)
  {
    var a := Raise(Raise(regs, i1, v1), i2, v2);
    var b := Raise(Raise(regs, i2, v2), i1, v1);
    forall j | 0 <= j < M
      ensures a[j] == b[j]
    {
    }
  }

  /** The order in which two hashes are observed does not matter. */
  lemma ObserveCommutes(regs: seq<u8>, h1: bv64, h2: bv64)
    requires |regs| == M
    ensures Observe(Observe(regs, h1), h2) == Observe(Observe(regs, h2), h1)
  {
    RaiseCommutes(regs, Slot(h1), RankByte(h1), Slot(h2), RankByte(h2));
  }

  /** Every register stays within the range of ranks, [0, 64 - p]. */
  ghost predicate InRange(regs: seq<u8>) {
    forall i :: 0 <= i < |regs| ==> regs[i] <= MaxRank
  }

  /** The register array after observing `hs` in order, starting from all zeros. */
  function Sketch(hs: seq<bv64>): (r: seq<u8>)
    ensures |r| == M
  {
    if hs == [] then Empty() else Observe(Sketch(hs[..|hs| - 1]), hs[|hs| - 1])
  }

  /** Observing one more hash is one `Observe` of the sketch. */
  lemma SketchAppend(hs: seq<bv64>, h: bv64)
    ensures Sketch(hs + [h]) == Observe(Sketch(hs), h)
  {
    assert (hs + [h])[..|hs|] == hs;
  }

  /** The largest rank among the hashes in `hs` that select register `i`, or 0. */
  function MaxRankAt(hs: seq<bv64>, i: nat): u8 {
    if hs == [] then 0
    else
      var last := hs[|hs| - 1];
      var rest := MaxRankAt(hs[..|hs| - 1], i);
      if Slot(last) == i then Max(rest, RankByte(last)) else rest
  }

  /**
   * Reference characterisation of the sketch: register `i` holds the largest
   * rank of the observed hashes that select it. So the sketch depends only
   * on the set of hashes observed, not on their order or multiplicity.
   */
  lemma {:induction false} SketchIsMaxRank(hs: seq<bv64>, i: nat)
    requires i < M
    ensures Sketch(hs)[i] == MaxRankAt(hs, i)
  {
    if hs != [] {
      SketchIsMaxRank(hs[..|hs| - 1], i);
      ObserveEffect(Sketch(hs[..|hs| - 1]), hs[|hs| - 1]);
    }
  }

  /** Every hash observed has left at least its rank in its register. */
  lemma {:induction false} SketchRecords(hs: seq<bv64>, k: nat)
    requires k < |hs|
    ensures Sketch(hs)[Slot(hs[k])] >= RankByte(hs[k])
  {
    var init, last := hs[..|hs| - 1], hs[|hs| - 1];
    var i, r := Slot(hs[k]), RankByte(hs[k]);
    assert Sketch(hs) == Observe(Sketch(init), last);
    ObserveEffect(Sketch(init), last);
    if k < |hs| - 1 {
      assert init[k] == hs[k];
      SketchRecords(init, k);
      assert Sketch(init)[i] >= r;
    }
  }

  /** Observing a hash that was observed before leaves the sketch unchanged. */
  lemma SketchIgnoresDuplicate(hs: seq<bv64>, h: bv64)
    requires h in hs
    ensures Sketch(hs + [h]) == Sketch(hs)
  {
    var k :| 0 <= k < |hs| && hs[k] == h;
    SketchRecords(hs, k);
    assert (hs + [h])[..|hs|] == hs;
    ObserveAbsorbed(Sketch(hs), h);
  }

  /** No register ever exceeds the largest rank. */
  lemma {:induction false} SketchInRange(hs: seq<bv64>)
    ensures InRange(Sketch(hs))
  {
    if hs != [] {
      SketchInRange(hs[..|hs| - 1]);
      ObserveEffect(Sketch(hs[..|hs| - 1]), hs[|hs| - 1]);
    }
  }
}
