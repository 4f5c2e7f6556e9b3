/**
 * The approximate branch of `HyperLogLog::estimate`, over `real`.
 *
 * Doubles become exact reals (no rounding), and `std::log` is a parameter
 * `ln` of the estimator: the structure of the computation, its branches
 * and its floor at 1 are modelled, not its numerical accuracy.
 */
module Estimator {
  import opened Registers

  /** 2^n, exactly. */
  function Pow2(n: nat): (r: real)
    ensures r >= 1.0
  {
    if n == 0 then 1.0 else 2.0 * Pow2(n - 1)
  }

  /** `std::pow(2.0, -r)`, the contribution of one register to `sum`. */
  function InvPow2(r: u8): (v: real)
    ensures 0.0 < v <= 1.0
    ensures r >= 1 ==> v <= 0.5
  {
    var d := Pow2(r as nat);
    assert r >= 1 ==> d == 2.0 * Pow2(r as nat - 1);
    1.0 / d
  }

  /** `1.0 / std::pow(2.0, -r)` is 2^r. */
  lemma InvPow2Inverse(r: u8)
    ensures 1.0 / InvPow2(r) == Pow2(r as nat)
  {
  }

  /** `sum` after the register loop: the sum of 2^-r over all registers. */
  function SumPow(s: seq<u8>): (r: real)
    ensures 0.0 <= r <= |s| as real
    ensures |s| > 0 ==> r > 0.0
  {
    if s == [] then 0.0 else SumPow(s[..|s| - 1]) + InvPow2(s[|s| - 1])
  }

  /**
   * `harmonicMean` after the register loop. Despite its name it is the sum
   * of `1.0 / 2^-r`, that is of 2^r, over all registers.
   */
  function SumHarm(s: seq<u8>): (r: real)
    ensures r >= |s| as real
  {
    if s == [] then 0.0 else SumHarm(s[..|s| - 1]) + Pow2(s[|s| - 1] as nat)
  }

  /** `zeros` after the register loop: how many registers are still 0. */
  function Zeros(s: seq<u8>): (n: nat)
    ensures n <= |s|
  {
    if s == [] then 0 else Zeros(s[..|s| - 1]) + (if s[|s| - 1] == 0 then 1 else 0)
  }

  /**
   * The bias correction factor: fixed constants for 4, 5 and 6 register
   * bits, otherwise `0.7213 / (1 + 1.079 / m)`.
   */
  function Alpha(bits: nat): (a: real)
    ensures 0.0 < a < 1.0
  {
    if bits == 4 then 0.673
    else if bits == 5 then 0.697
    else if bits == 6 then 0.709
    else 0.7213 / (1.0 + 1.079 / Pow2(bits))
  }

  function MaxReal(a: real, b: real): real {
    if a < b then b else a
  }

  function MinReal(a: real, b: real): real {
    if a < b then a else b
  }

  /** `(1LL << 32) / 30.0`, the threshold of the large-range correction. */
  const LargeRange: real := 4294967296.0 / 30.0

  /** `numRegisters`, as the double the estimate is computed in. */
  const Mr: real := 16384.0

  /** `alpha * numRegisters * numRegisters / sum` */
  function RawEstimate(sum: real): (r: real)
    requires sum > 0.0
    ensures r > 0.0
  {
    Alpha(14) * Mr * Mr / sum
  }

  /**
   * The corrected estimate from the three accumulators: the small-range
   * correction `m * ln(m / zeros)` when the raw estimate is at most `5m` and
   * some register is 0; otherwise, above `2^32 / 30`, the smaller of the raw
   * estimate and `m * m / (harmonicMean / m)`; and never less than 1.
   */
  function Corrected(sum: real, harm: real, zeros: nat, ln: real -> real): (e: real)
    requires sum > 0.0 && harm > 0.0
    ensures e >= 1.0
    ensures RawEstimate(sum) <= 5.0 * Mr && zeros > 0 ==>
              e == MaxReal(1.0, Mr * ln(Mr / zeros as real))
    ensures RawEstimate(sum) <= 5.0 * Mr && zeros == 0 ==>
              e == MaxReal(1.0, RawEstimate(sum))
    ensures 5.0 * Mr < RawEstimate(sum) <= LargeRange ==>
              e == MaxReal(1.0, RawEstimate(sum))
    ensures LargeRange < RawEstimate(sum) ==>
              e == MaxReal(1.0, MinReal(RawEstimate(sum), Mr * Mr / (harm / Mr)))
  {
    var raw := RawEstimate(sum);
    var est :=
      if raw <= 5.0 * Mr then
        (if zeros > 0 then Mr * ln(Mr / zeros as real) else raw)
      else if raw > LargeRange then
        MinReal(raw, Mr * Mr / (harm / Mr))
      else raw;
    MaxReal(1.0, est)
  }

  /** The approximate estimate of a register array. */
  function ApproxEstimate(regs: seq<u8>, ln: real -> real): (e: real)
    requires |regs| == M
    ensures e >= 1.0
  {
    Corrected(SumPow(regs), SumHarm(regs), Zeros(regs), ln)
  }

  /** Over an array of zeros there are `|s|` zeros and `sum` is `|s|`. */
  lemma {:induction false} AllZero(s: seq<u8>)
    requires forall i :: 0 <= i < |s| ==> s[i] == 0
    ensures Zeros(s) == |s|
    ensures SumPow(s) == |s| as real
  {
    if s != [] {
      AllZero(s[..|s| - 1]);
    }
  }

  /** Changing one register changes `zeros` by the zero-ness of the old and new value. */
  lemma {:induction false} ZerosUpdate(s: seq<u8>, i: nat, v: u8)
    requires i < |s|
    ensures Zeros(s[i := v]) + (if s[i] == 0 then 1 else 0) ==
            Zeros(s) + (if v == 0 then 1 else 0)
  {
    var t := s[i := v];
    if i < |s| - 1 {
      assert t[..|t| - 1] == s[..|s| - 1][i := v];
      ZerosUpdate(s[..|s| - 1], i, v);
    } else {
      assert t[..|t| - 1] == s[..|s| - 1];
    }
  }

  /** Changing one register changes `sum` by the difference of the two terms. */
  lemma {:induction false} SumPowUpdate(s: seq<u8>, i: nat, v: u8)
    requires i < |s|
    ensures SumPow(s[i := v]) + InvPow2(s[i]) == SumPow(s) + InvPow2(v)
  {
    var t := s[i := v];
    if i < |s| - 1 {
      assert t[..|t| - 1] == s[..|s| - 1][i := v];
      SumPowUpdate(s[..|s| - 1], i, v);
    } else {
      assert t[..|t| - 1] == s[..|s| - 1];
    }
  }

  /** A single observed hash leaves 16383 zeros and a `sum` of at least 16383. */
  lemma SingleObservationSums(h: bv64)
    ensures Zeros(Sketch([h])) == M - 1
    ensures SumPow(Sketch([h])) >= 16383.0
  {
    var regs := Sketch([h]);
    assert [h][..0] == [];
    assert regs == Observe(Sketch([]), h);
    assert regs == Raise(Empty(), Slot(h), RankByte(h));
    assert Max(Empty()[Slot(h)], RankByte(h)) == RankByte(h);
    assert regs == Empty()[Slot(h) := RankByte(h)];
    AllZero(Empty());
    ZerosUpdate(Empty(), Slot(h), RankByte(h));
    SumPowUpdate(Empty(), Slot(h), RankByte(h));
  }

  /** With `sum` at least `m - 1`, the raw estimate stays below `5m`. */
  lemma RawBelowSmallRange(sum: real)
    requires sum >= 16383.0
    ensures RawEstimate(sum) <= 5.0 * Mr
  {
    var a := Alpha(14) * Mr * Mr;
    var raw := RawEstimate(sum);
    assert raw * sum == a;
    assert a <= Mr * Mr;
  }

  /**
   * Right after the switch to approximate mode, the registers hold a single
   * observed hash. Then 16383 registers are 0, the raw estimate is below `5m`,
   * and the estimate is the small-range correction `m * ln(m / (m - 1))`,
   * whatever number of distinct keys was counted before the switch.
   */
  lemma SingleObservation(h: bv64, ln: real -> real)
    ensures ApproxEstimate(Sketch([h]), ln) == MaxReal(1.0, Mr * ln(Mr / 16383.0))
  {
    SingleObservationSums(h);
    RawBelowSmallRange(SumPow(Sketch([h])));
  }

  /**
   * With any logarithm that keeps `ln(x) <= x - 1` at `x = m / (m - 1)`, as the
   * natural logarithm does, the estimate right after the switch is below 2,
   * although more than 10000 distinct keys have been added.
   */
  lemma SingleObservationBelowTwo(h: bv64, ln: real -> real)
    requires ln(Mr / 16383.0) <= Mr / 16383.0 - 1.0
    ensures 1.0 <= ApproxEstimate(Sketch([h]), ln) < 2.0
  {
    SingleObservation(h, ln);
  }
}
