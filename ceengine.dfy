/**
 * `CEEngine::Impl`: the engine keeps every inserted `(int, int)` tuple and
 * feeds a 64-bit key packed from it to a `HyperLogLog` of precision 14.
 *
 * A C++ `int` is a 32-bit two's-complement value; it is modelled by its bit
 * pattern, a `bv32`, so that the conversions the code performs are plain
 * bit operations.
 */
module Engine {
  import opened Registers
  import opened ExactCount
  import opened Estimator
  import opened Hll

  /** `std::tuple<int, int>` */
  datatype Tuple = Tuple(first: bv32, second: bv32)

  /** The `int` is negative: its sign bit is set. */
  predicate Negative(w: bv32) {
    w >> 31 == 1
  }

  /**
   * `static_cast<uint64_t>(int)`: the value modulo 2^64, that is the bit
   * pattern sign-extended to 64 bits.
   */
  function Widen(w: bv32): bv64 {
    ((w as bv64) ^ 0x8000_0000) - 0x8000_0000
  }

  /**
   * The low half of the widened value is the `int`'s bit pattern; the high
   * half is all zeros for a non-negative `int` and all ones for a negative one.
   */
  lemma WidenBits(w: bv32)
    ensures Widen(w) & 0xFFFF_FFFF == w as bv64
    ensures !Negative(w) ==> Widen(w) == w as bv64
    ensures Negative(w) ==> Widen(w) >> 32 == 0xFFFF_FFFF
  {
  }

  /**
   * The key `insertTuple` packs: `(uint64_t)first << 32 | (uint64_t)second`.
   * The sign extension of the second field lands in the high half.
   */
  function Pack(t: Tuple): bv64 {
    (Widen(t.first) << 32) | Widen(t.second)
  }

  /**
   * With a non-negative second field the key is the first field's 32 bits
   * above the second field's 32 bits; the first field's sign extension is
   * shifted out, so only its value modulo 2^32 remains.
   */
  lemma PackNonNegative(t: Tuple)
    requires !Negative(t.second)
    ensures Pack(t) == ((t.first as bv64) << 32) | (t.second as bv64)
    ensures Pack(t) >> 32 == t.first as bv64
    ensures Pack(t) & 0xFFFF_FFFF == t.second as bv64
  {
  }

  /** Zero extension to 64 bits keeps distinct words distinct. */
  lemma ZeroExtendInjective(a: bv32, b: bv32)
    requires a as bv64 == b as bv64
    ensures a == b
  {
  }

  /** On tuples whose second field is non-negative, packing loses nothing. */
  lemma PackInjective(t1: Tuple, t2: Tuple)
    requires !Negative(t1.second) && !Negative(t2.second)
    ensures Pack(t1) == Pack(t2) <==> t1 == t2
  {
    PackNonNegative(t1);
    PackNonNegative(t2);
    if Pack(t1) == Pack(t2) {
      ZeroExtendInjective(t1.first, t2.first);
      ZeroExtendInjective(t1.second, t2.second);
    }
  }

  /**
   * With a negative second field the high half of the key is all ones,
   * whatever the first field is: the key is just the widened second field.
   */
  lemma PackNegative(t: Tuple)
    requires Negative(t.second)
    ensures Pack(t) >> 32 == 0xFFFF_FFFF
    ensures Pack(t) == Widen(t.second)
  {
    WidenBits(t.second);
  }

  /** So `(a, s)` and `(b, s)` collide for every negative `s`. */
  lemma PackCollision(a: bv32, b: bv32, s: bv32)
    requires Negative(s)
    ensures Pack(Tuple(a, s)) == Pack(Tuple(b, s))
  {
    PackNegative(Tuple(a, s));
    PackNegative(Tuple(b, s));
  }

  /** The keys of a sequence of tuples, in order. */
  function Keys(ts: seq<Tuple>): (ks: seq<bv64>)
    ensures |ks| == |ts|
  {
    if ts == [] then [] else Keys(ts[..|ts| - 1]) + [Pack(ts[|ts| - 1])]
  }

  /** Key `i` is the packing of tuple `i`. */
  lemma {:induction false} KeysAt(ts: seq<Tuple>, i: nat)
    requires i < |ts|
    ensures Keys(ts)[i] == Pack(ts[i])
  {
    if i < |ts| - 1 {
      KeysAt(ts[..|ts| - 1], i);
    }
  }

  /** The keys of a prefix are the prefix of the keys. */
  lemma {:induction false} KeysPrefix(ts: seq<Tuple>, i: nat)
    requires i <= |ts|
    ensures Keys(ts[..i]) == Keys(ts)[..i]
  {
    forall j | 0 <= j < i
      ensures Keys(ts[..i])[j] == Keys(ts)[j]
    {
      KeysAt(ts[..i], j);
      KeysAt(ts, j);
    }
  }

  /** A prefix one longer is one element more. */
  lemma PrefixStep<T>(s: seq<T>, i: nat)
    requires i < |s|
    ensures s[..i + 1] == s[..i] + [s[i]]
  {
  }

  /** The keys of one more tuple of a stream. */
  lemma KeysStep(ts: seq<Tuple>, i: nat)
    requires i < |ts|
    ensures Keys(ts[..i + 1]) == Keys(ts[..i]) + [Pack(ts[i])]
  {
    assert ts[..i + 1][..i] == ts[..i];
  }

  /** Packing is applied tuple by tuple. */
  lemma KeysAppend(ts: seq<Tuple>, t: Tuple)
    ensures Keys(ts + [t]) == Keys(ts) + [Pack(t)]
  {
    assert (ts + [t])[..|ts|] == ts;
  }

  /** No tuple has a negative second field. */
  ghost predicate NonNegativeSeconds(ts: seq<Tuple>) {
    forall i :: 0 <= i < |ts| ==> !Negative(ts[i].second)
  }

  /** With no negative second field, a tuple's key was seen exactly when the tuple was. */
  lemma KeySeenIffTupleSeen(ts: seq<Tuple>, t: Tuple)
    requires NonNegativeSeconds(ts) && !Negative(t.second)
    ensures Pack(t) in Keys(ts) <==> t in ts
  {
    if t in ts {
      var i :| 0 <= i < |ts| && ts[i] == t;
      KeysAt(ts, i);
    } else {
      forall i | 0 <= i < |ts|
        ensures Keys(ts)[i] != Pack(t)
      {
        KeysAt(ts, i);
        PackInjective(ts[i], t);
      }
    }
  }

  /**
   * When no second field is negative, there are as many distinct keys as
   * distinct tuples, so exact counting of keys counts tuples.
   */
  lemma {:induction false} DistinctKeysCountTuples(ts: seq<Tuple>)
    requires NonNegativeSeconds(ts)
    ensures |Distinct(Keys(ts))| == |Distinct(ts)|
  {
    if ts != [] {
      var init, last := ts[..|ts| - 1], ts[|ts| - 1];
      assert ts == init + [last];
      DistinctKeysCountTuples(init);
      KeysAppend(init, last);
      KeySeenIffTupleSeen(init, last);
      DistinctAppend(init, last);
      DistinctAppend(Keys(init), Pack(last));
    }
  }

  /** Two tuples that differ only in their first field, with second field -1. */
  lemma CollidingTuples()
    ensures Tuple(1, 0xFFFF_FFFF) != Tuple(2, 0xFFFF_FFFF)
    ensures |Distinct([Tuple(1, 0xFFFF_FFFF), Tuple(2, 0xFFFF_FFFF)])| == 2
    ensures |Distinct(Keys([Tuple(1, 0xFFFF_FFFF), Tuple(2, 0xFFFF_FFFF)]))| == 1
  {
    var t1, t2 := Tuple(1, 0xFFFF_FFFF), Tuple(2, 0xFFFF_FFFF);
    PackCollision(1, 2, 0xFFFF_FFFF);
    KeysAppend([t1], t2);
    KeysAppend([], t1);
    assert Keys([t1, t2]) == [Pack(t1), Pack(t1)];
    assert Distinct(Keys([t1, t2])) == {Pack(t1)};
    assert Distinct([t1, t2]) == {t1, t2};
  }

  class Impl {
    /** `hll`, constructed with 14 register bits. */
    const hll: HyperLogLog
    /** `tuples`, every tuple inserted since construction or the last `prepare`. */
    var tuples: seq<Tuple>

    /** The sketch has seen exactly the keys of the stored tuples, in order. */
    ghost predicate Valid()
      reads this, hll, hll.registers
    {
      hll.Valid() && hll.History() == Keys(tuples)
    }

    /** `Impl() : hll(14) {}` */
    constructor ()
      ensures Valid() && fresh(hll) && fresh(hll.registers)
      ensures tuples == [] && hll.isExactCount
    {
      hll := new HyperLogLog();
      tuples := [];
    }

    /**
     * `insertTuple`: store the tuple, then add its packed key to the sketch.
     * The sketch's own contract (`HyperLogLog.Add`) says what that does.
     */
    method InsertTuple(t: Tuple)
      requires Valid()
      modifies this, hll, hll.registers
      ensures Valid()
      ensures tuples == old(tuples) + [t]
      ensures old(hll.isExactCount) && |Bump(old(hll.valueFrequency), Pack(t))| <= MaxTracked ==>
                hll.isExactCount && hll.valueFrequency == Bump(old(hll.valueFrequency), Pack(t)) &&
                hll.registers[..] == old(hll.registers[..])
      ensures old(hll.isExactCount) && |Bump(old(hll.valueFrequency), Pack(t))| > MaxTracked ==>
                !hll.isExactCount && hll.valueFrequency == map[] &&
                hll.registers[..] == Observe(old(hll.registers[..]), TupleHash(Pack(t)))
      ensures !old(hll.isExactCount) ==>
                !hll.isExactCount && hll.registers[..] == Observe(old(hll.registers[..]), TupleHash(Pack(t)))
    {
      tuples := tuples + [t];
      var combined := Pack(t);
      KeysAppend(old(tuples), t);
      hll.Add(combined);
    }

    /**
     * `estimate`: in exact mode the number of distinct packed keys among the
     * stored tuples, otherwise the sketch's approximate estimate.
     */
    method Estimate(ln: real -> real) returns (e: real)
      requires Valid()
      ensures hll.isExactCount ==> e == |Distinct(Keys(tuples))| as real
      ensures !hll.isExactCount ==> e == ApproxEstimate(hll.registers[..], ln) && e >= 1.0
    {
      e := hll.Estimate(ln);
    }

    /** `prepare`: forget the tuples and reset the sketch. */
    method Prepare()
      requires Valid()
      modifies this, hll, hll.registers
      ensures Valid()
      ensures tuples == []
      ensures hll.isExactCount && hll.valueFrequency == map[]
      ensures hll.registers[..] == Empty()
    {
      tuples := [];
      hll.Reset();
    }
  }

  /**
   * A fresh engine given `(1, -1)` and `(2, -1)`: two distinct tuples, one
   * packed key, so the exact estimate is 1.
   */
  method CollisionEstimate(ln: real -> real) returns (e: real)
    ensures e == 1.0
  {
    var engine := new Impl();
    var t1, t2 := Tuple(1, 0xFFFF_FFFF), Tuple(2, 0xFFFF_FFFF);
    CollidingTuples();
    engine.InsertTuple(t1);
    engine.InsertTuple(t2);
    e := engine.Estimate(ln);
  }

  /** After tuples are inserted and the engine is prepared, the estimate is 0. */
  method EstimateAfterPrepare(ln: real -> real, ts: seq<Tuple>) returns (e: real)
    ensures e == 0.0
  {
    var engine := new Impl();
    for i := 0 to |ts|
      invariant engine.Valid()
    {
      engine.InsertTuple(ts[i]);
    }
    engine.Prepare();
    e := engine.Estimate(ln);
  }

  /**
   * While the whole stream has at most 10000 distinct keys, counting one
   * more of its tuples never takes the map past 10000 keys.
   */
  lemma StaysExact(ts: seq<Tuple>, i: nat)
    requires i < |ts| && |Distinct(Keys(ts))| <= MaxTracked
    ensures |Bump(Frequencies(Keys(ts[..i])), Pack(ts[i]))| <= MaxTracked
  {
    KeysStep(ts, i);
    FrequenciesAppend(Keys(ts[..i]), Pack(ts[i]));
    FrequenciesSize(Keys(ts[..i + 1]));
    KeysPrefix(ts, i + 1);
    DistinctPrefix(Keys(ts), i + 1);
  }

  /**
   * A fresh engine given a stream with at most 10000 distinct keys stays in
   * exact mode, and its estimate is the number of distinct keys; when no
   * second field is negative, that is the number of distinct tuples.
   */
  method ExactEstimate(ln: real -> real, ts: seq<Tuple>) returns (e: real)
    requires |Distinct(Keys(ts))| <= MaxTracked
    ensures e == |Distinct(Keys(ts))| as real
    ensures NonNegativeSeconds(ts) ==> e == |Distinct(ts)| as real
  {
    var engine := new Impl();
    for i := 0 to |ts|
      invariant engine.Valid() && fresh(engine) && fresh(engine.hll) && fresh(engine.hll.registers)
      invariant engine.tuples == ts[..i] && engine.hll.isExactCount
    {
      assert engine.hll.log.counted == Keys(ts[..i]);
      StaysExact(ts, i);
      engine.InsertTuple(ts[i]);
      PrefixStep(ts, i);
    }
    assert ts[..|ts|] == ts;
    e := engine.Estimate(ln);
    if NonNegativeSeconds(ts) {
      DistinctKeysCountTuples(ts);
    }
  }

  /**
   * An engine is in exact mode exactly while its stored tuples have at most
   * 10000 distinct packed keys.
   */
  lemma EngineModeIffDistinct(engine: Impl)
    requires engine.Valid()
    ensures engine.hll.isExactCount <==> |Distinct(Keys(engine.tuples))| <= MaxTracked
  {
    ModeIffDistinct(engine.hll);
  }

  /**
   * A fresh engine given a stream with more than 10000 distinct keys ends in
   * approximate mode, holding the stream, and its estimate is the sketch
   * estimate of its registers, at least 1.
   */
  method OverflowEstimate(ln: real -> real, ts: seq<Tuple>) returns (engine: Impl, e: real)
    requires |Distinct(Keys(ts))| > MaxTracked
    ensures engine.Valid() && engine.tuples == ts && !engine.hll.isExactCount
    ensures e == ApproxEstimate(engine.hll.registers[..], ln) && e >= 1.0
  {
    engine := new Impl();
    for i := 0 to |ts|
      invariant engine.Valid() && fresh(engine) && fresh(engine.hll) && fresh(engine.hll.registers)
      invariant engine.tuples == ts[..i]
    {
      engine.InsertTuple(ts[i]);
      PrefixStep(ts, i);
    }
    assert ts[..|ts|] == ts;
    EngineModeIffDistinct(engine);
    e := engine.Estimate(ln);
  }

  /** Inserting the same tuple any positive number of times gives an estimate of 1. */
  method RepeatedEstimate(ln: real -> real, t: Tuple, n: nat) returns (e: real)
    requires n >= 1
    ensures e == 1.0
  {
    var ts := seq(n, _ => t);
    forall i | 0 <= i < n
      ensures Keys(ts)[i] == Pack(t)
    {
      KeysAt(ts, i);
    }
    assert Keys(ts)[0] == Pack(t);
    assert Distinct(Keys(ts)) == {Pack(t)};
    e := ExactEstimate(ln, ts);
  }
}
