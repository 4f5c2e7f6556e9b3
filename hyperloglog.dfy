/**
 * The hybrid distinct-value counter `HyperLogLog`: exact counting in a map
 * of at most 10000 keys, then a one-way switch to a register sketch of
 * 2^14 one-byte registers.
 */
module Hll {
  import opened XxHash
  import opened Registers
  import opened ExactCount
  import opened Estimator

  /** The two seeds `hashTuple` passes to the mixing hash. */
  const Seed1: bv64 := 0x1_2345_6789
  const Seed2: bv64 := 0x9_8765_4321

  /**
   * The mixing hash of a key's 8 bytes: one block, no tail, then the
   * finaliser (see `XxHash.HashOfWord`).
   */
  function WordHash(value: bv64, seed: bv64): bv64 {
    Finalize(MixBlock(Init(seed), value))
  }

  /** `hash1 ^ (hash2 >> 1)` */
  function Combine(hash1: bv64, hash2: bv64): bv64 {
    hash1 ^ (hash2 >> 1)
  }

  /** `hashTuple`: the key hashed under both seeds, the two results combined. */
  function TupleHash(value: bv64): bv64 {
    Combine(WordHash(value, Seed1), WordHash(value, Seed2))
  }

  /** `XXHash64(&value, sizeof(value), seed)` on the key's bytes in memory order. */
  method HashKey(value: bv64, seed: bv64) returns (h: bv64)
    ensures h == WordHash(value, seed)
    ensures h == Hash64(LeBytes(value), seed)
  {
    ghost var blocks, tail;
    h, blocks, tail := XXHash64(LeBytes(value), seed);
    HashOfWord(value, seed);
  }

  /** Appending after a concatenation. */
  lemma AppendOne(a: seq<bv64>, b: seq<bv64>, x: bv64)
    ensures a + (b + [x]) == (a + b) + [x]
  {
  }

  /** `maxTrackedValues` */
  const MaxTracked: nat := 10000

  /**
   * What has been added since construction or the last `reset`: the keys
   * counted in the map, then the keys that went to the registers, and the
   * hashes of the latter in order.
   */
  datatype Log = Log(counted: seq<bv64>, sketched: seq<bv64>, hashes: seq<bv64>)

  class HyperLogLog {
    /** `registers`, one `uint8_t` per register, all 0 at construction. */
    const registers: array<u8>
    /** `valueFrequency`, the exact-mode map from key to count. */
    var valueFrequency: map<bv64, nat>
    /** `isExactCount`, the mode flag. */
    var isExactCount: bool

    /** The keys and hashes added so far, split at the switch of mode. */
    ghost var log: Log

    /** Every key added since construction or the last `reset`, in order. */
    ghost function History(): seq<bv64>
      reads this
    {
      log.counted + log.sketched
    }

    /**
     * In exact mode every key added is in the map with its count, at most
     * 10000 keys are tracked and the registers are untouched. In
     * approximate mode the map is empty, exactly 10000 distinct keys were
     * counted before the key that overflowed it, and the registers are the
     * sketch of that key and of every key added after it.
     */
    ghost predicate Valid()
      reads this, registers
    {
      if isExactCount then
        Counting()
      else
        Sketching() && log.sketched != [] && log.sketched[0] !in log.counted
    }

    /** The exact-mode part of `Valid`. */
    ghost predicate Counting()
      reads this, registers
    {
      registers.Length == M &&
      log.sketched == [] && log.hashes == [] &&
      valueFrequency == Frequencies(log.counted) &&
      |valueFrequency| <= MaxTracked &&
      registers[..] == Empty()
    }

    /** The approximate-mode part of `Valid`, which also holds at the switch. */
    ghost predicate Sketching()
      reads this, registers
    {
      registers.Length == M &&
      !isExactCount &&
      valueFrequency == map[] &&
      |Distinct(log.counted)| == MaxTracked &&
      |log.hashes| == |log.sketched| &&
      registers[..] == Sketch(log.hashes)
    }

    /** `HyperLogLog hll(14)`: zeroed registers, an empty map, exact mode. */
    constructor ()
      ensures Valid() && fresh(registers)
      ensures History() == []
      ensures isExactCount && valueFrequency == map[]
      ensures registers[..] == Empty()
    {
      registers := new u8[M](_ => 0);
      valueFrequency := map[];
      isExactCount := true;
      log := Log([], [], []);
      new;
      assert registers[..] == Empty();
    }

    /** `hashTuple`, calling the mixing hash once per seed. */
    method HashTuple(value: bv64) returns (h: bv64)
      ensures h == TupleHash(value)
    {
      var hash1 := HashKey(value, Seed1);
      var hash2 := HashKey(value, Seed2);
      h := Combine(hash1, hash2);
    }

    /**
     * `add`. In exact mode the key's count goes up; if that makes the map
     * track more than 10000 keys, the mode switches to approximate, the map
     * is emptied, and this very key goes on to the registers. In approximate
     * mode the key's hash raises its register. The mode never returns to
     * exact here.
     */
    method Add(value: bv64)
      requires Valid()
      modifies this, registers
      ensures Valid()
      ensures History() == old(History()) + [value]
      ensures old(isExactCount) && |Bump(old(valueFrequency), value)| <= MaxTracked ==>
                isExactCount && valueFrequency == Bump(old(valueFrequency), value) &&
                registers[..] == old(registers[..])
      ensures old(isExactCount) && |Bump(old(valueFrequency), value)| > MaxTracked ==>
                !isExactCount && valueFrequency == map[] &&
                registers[..] == Observe(old(registers[..]), TupleHash(value))
      ensures !old(isExactCount) ==>
                !isExactCount && valueFrequency == old(valueFrequency) &&
                registers[..] == Observe(old(registers[..]), TupleHash(value))
      ensures !isExactCount ==>
                log.sketched == old(log.sketched) + [value] &&
                log.hashes == old(log.hashes) + [TupleHash(value)]
    {
      ghost var counted, sketched := log.counted, log.sketched;
      if isExactCount {
        var switched := CountExact(value);
        if !switched {
          assert History() == counted + [value];
          return;
        }
      }
      var hash := HashTuple(value);
      Record(value, hash);
      AppendOne(counted, sketched, value);
    }

    /**
     * The exact-mode part of `add`: count the key, and if the map then
     * tracks more than 10000 keys, empty it and leave exact mode. The key is
     * then not yet recorded anywhere; `add` goes on to its hash.
     */
    method CountExact(value: bv64) returns (switched: bool)
      requires Valid() && isExactCount
      modifies this
      ensures switched <==> |Bump(old(valueFrequency), value)| > MaxTracked
      ensures !switched ==>
                Valid() && isExactCount &&
                valueFrequency == Bump(old(valueFrequency), value) &&
                log == Log(old(log.counted) + [value], [], [])
      ensures switched ==>
                Sketching() && log == old(log) && value !in log.counted
    {
      FrequenciesAppend(log.counted, value);
      ghost var before := registers[..];
      assert before == Sketch([]);
      valueFrequency := Bump(valueFrequency, value);
      switched := |valueFrequency| > MaxTracked;
      if switched {
        Overflow(log.counted, value, MaxTracked);
        isExactCount, valueFrequency := false, map[];
        assert registers[..] == before;
      } else {
        log := Log(log.counted + [value], [], []);
      }
    }

    /**
     * The approximate-mode tail of `add`, given the key's hash: pick its
     * register by the top bits and raise it to the hash's rank.
     */
    method Record(value: bv64, hash: bv64)
      requires Sketching()
      requires log.sketched == [] ==> value !in log.counted
      requires log.sketched != [] ==> log.sketched[0] !in log.counted
      modifies this, registers
      ensures Valid() && !isExactCount
      ensures registers[..] == Observe(old(registers[..]), hash)
      ensures valueFrequency == old(valueFrequency)
      ensures log == Log(old(log.counted), old(log.sketched) + [value], old(log.hashes) + [hash])
    {
      var idx := Slot(hash);
      var rank := RankByte(hash);
      registers[idx] := Max(registers[idx], rank);
      SketchAppend(log.hashes, hash);
      log := Log(log.counted, log.sketched + [value], log.hashes + [hash]);
    }

    /**
     * `estimate`. In exact mode it is the size of the map, which is the
     * number of distinct keys added since the last reset; otherwise it is
     * the corrected sketch estimate of the registers, never below 1.
     */
    method Estimate(ln: real -> real) returns (e: real)
      requires Valid()
      ensures isExactCount ==> e == |valueFrequency| as real
      ensures isExactCount ==> e == |Distinct(History())| as real
      ensures !isExactCount ==> e == ApproxEstimate(registers[..], ln) && e >= 1.0
    {
      if isExactCount {
        assert History() == log.counted;
        FrequenciesSize(log.counted);
        return |valueFrequency| as real;
      }
      var sum := 0.0;
      var zeros := 0;
      var harmonicMean := 0.0;
      for i := 0 to registers.Length
        invariant sum == SumPow(registers[..i])
        invariant harmonicMean == SumHarm(registers[..i])
        invariant zeros == Zeros(registers[..i])
      {
        var r := registers[i];
        var val := InvPow2(r);
        InvPow2Inverse(r);
        sum := sum + val;
        harmonicMean := harmonicMean + 1.0 / val;
        if r == 0 {
          zeros := zeros + 1;
        }
        assert registers[..i + 1][..i] == registers[..i];
      }
      assert registers[..registers.Length] == registers[..];
      e := Corrected(sum, harmonicMean, zeros, ln);
    }

    /** `reset`: every register back to 0, the map emptied, exact mode again. */
    method Reset()
      requires Valid()
      modifies this, registers
      ensures Valid()
      ensures History() == []
      ensures isExactCount && valueFrequency == map[]
      ensures registers[..] == Empty()
    {
      for i := 0 to registers.Length
        invariant forall j :: 0 <= j < i ==> registers[j] == 0
      {
        registers[i] := 0;
      }
      assert registers[..] == Empty();
      valueFrequency := map[];
      isExactCount := true;
      log := Log([], [], []);
    }
  }

  /**
   * The mode records the distinct-key count since the last reset: the
   * counter is exact exactly while at most 10000 distinct keys have been
   * added. So the 10001st distinct key ends exact mode, and only `reset`
   * brings it back.
   */
  lemma ModeIffDistinct(h: HyperLogLog)
    requires h.Valid()
    ensures h.isExactCount <==> |Distinct(h.History())| <= MaxTracked
  {
    if h.isExactCount {
      assert h.History() == h.log.counted;
      FrequenciesSize(h.log.counted);
    } else {
      var counted, first := h.log.counted, h.log.sketched[0];
      var n := |counted| + 1;
      assert h.History()[..n] == counted + [first];
      DistinctAppend(counted, first);
      DistinctPrefix(h.History(), n);
    }
  }
}
