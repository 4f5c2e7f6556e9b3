# CardinalityEstimation in Dafny

This is a verified model of the distinct-value estimator in CardinalityEstimation. It covers three pieces:

- **`HyperLogLog`**: a hybrid counter. It counts keys exactly in a map until the map holds more than 10000 keys. Then, once and for good (until `reset`), it switches to a HyperLogLog sketch of 2^14 one-byte registers.
- **`CEEngine::Impl`**: it stores `(int, int)` tuples and feeds a 64-bit key packed from each tuple to the counter.
- **`XXHash64`**: the seeded 64-bit mixing hash that `hashTuple` calls twice.

The project has six modules, in dependency order:

| file | module | what it holds |
|---|---|---|
| `xxhash.dfy` | `XxHash` | `XXHash64` as a method with its two loops, proved against a recursive specification `Hash64` over a byte sequence |
| `registers.dfy` | `Registers` | the register index and rank of a hash over `bv64`; the register update `Observe` and its algebra (monotone, idempotent, one slot, order-independent); `Sketch`, the register array after a sequence of hashes, characterised as a per-register maximum |
| `exactcount.dfy` | `ExactCount` | the exact-mode map `valueFrequency` as `Frequencies` of the keys added; its size is the number of distinct keys |
| `estimator.dfy` | `Estimator` | the approximate branch of `estimate` over `real`: the three accumulators, the bias constant, the range corrections and the floor at 1 |
| `hyperloglog.dfy` | `Hll` | the class `HyperLogLog`, with the register array as an `array<u8>` updated in place, the map, and the mode flag |
| `ceengine.dfy` | `Engine` | the key packing with its sign-extension collision; the class `Impl`; whole-engine statements, written as methods that drive a fresh engine |

The sketch keeps a ghost `log` of the keys it has been given since construction or the last `reset`:

- the keys counted in the map;
- the keys sent to the registers;
- the hashes of the keys sent to the registers.

Its invariant `Valid` ties this log to the state:

- **Exact mode:** the map is `Frequencies` of the counted keys and the registers are all 0.
- **Approximate mode:** the map is empty, exactly 10000 distinct keys were counted, and the registers are `Sketch` of the recorded hashes.

The engine's `Valid` adds one more fact: the sketch's history is exactly the packed keys of the stored tuples.

## Two behaviours of the code worth knowing

- **Key packing sign-extends the second field.** The cast at CardinalityEstimation/src/CEEngine.cpp:106 turns the second `int` into a `uint64_t`, which sign-extends it. For a negative second field the high 32 bits of the key are therefore all ones, whatever the first field is, so `(a, s)` and `(b, s)` give the same key. The model proves:
  - `Engine.PackNegative` and `Engine.PackCollision`: the collision itself;
  - `Engine.CollisionEstimate`: two distinct tuples with an exact estimate of 1;
  - `Engine.PackInjective`: that packing is injective when no second field is negative.
- **The overflowing key reaches the registers.** `add` clears the flag at CardinalityEstimation/src/CEEngine.cpp:31 and re-tests it at :34, so the key that overflows the map is itself hashed into the registers. The 10000 keys counted before it are lost. Right after the switch the sketch holds exactly one hash, and the estimate is below 2 (`Estimator.SingleObservationBelowTwo`).

## Model

| member | source | states |
|---|---|---|
| XxHash.XXHash64 | CardinalityEstimation/third_party/xxhash/xxhash.c:12-38 | the result is `Hash64` of the bytes and the seed, so it depends on nothing else; the block loop runs `length / 8` times and the tail loop `length % 8` times |
| XxHash.ReadLeBytes | CardinalityEstimation/third_party/xxhash/xxhash.c:18 | the word read from a `uint64_t`'s own 8 bytes in memory is that value |
| XxHash.HashOfWord | CardinalityEstimation/third_party/xxhash/xxhash.c:16-35 | on an 8-byte input the block loop mixes the single word once, the tail loop does nothing, and the finaliser follows |
| XxHash.Init | CardinalityEstimation/third_party/xxhash/xxhash.c:14 | definition: the initial state is the seed plus `0x9E3779B97F4A7C15`, wrapping modulo 2^64 |
| XxHash.ReadWord | CardinalityEstimation/third_party/xxhash/xxhash.c:18 | definition: the `memcpy` of 8 bytes at `p` into a `uint64_t` on a little-endian machine, with byte `p` least significant; `ReadLeBytes` is its inverse property |
| XxHash.LeBytes | CardinalityEstimation/third_party/xxhash/xxhash.c:18 | a `uint64_t` occupies 8 bytes in memory, least significant first |
| XxHash.MixWord | CardinalityEstimation/third_party/xxhash/xxhash.c:19-21 | definition: `k *= C; k ^= k >> 47; k *= C`, wrapping |
| XxHash.Fold | CardinalityEstimation/third_party/xxhash/xxhash.c:22-23 | definition: `hash ^= k; hash *= C`, wrapping |
| XxHash.MixByte | CardinalityEstimation/third_party/xxhash/xxhash.c:29-30 | definition: one tail pass, `hash ^= byte; hash *= C` |
| XxHash.Finalize | CardinalityEstimation/third_party/xxhash/xxhash.c:33-35 | definition: `hash ^= hash >> 47; hash *= C; hash ^= hash >> 47` |
| XxHash.AbsorbTail | CardinalityEstimation/third_party/xxhash/xxhash.c:28-31 | definition: one `MixByte` per remaining byte, in order; `XXHash64`'s tail loop is proved equal to it |
| XxHash.Absorb | CardinalityEstimation/third_party/xxhash/xxhash.c:16-31 | definition: one block pass per whole 8-byte word while 8 bytes remain, then the tail; `XXHash64`'s block loop is proved equal to it |
| XxHash.Hash64 | CardinalityEstimation/third_party/xxhash/xxhash.c:12-38 | definition: the finaliser applied after absorbing all bytes into the seeded state, a function of bytes and seed alone; `XXHash64` is proved equal to it |
| Registers.Ctz | CardinalityEstimation/src/CEEngine.cpp:39 | for a non-zero word, the result is below 64, the bit at that position is set, and every lower bit is clear |
| Registers.Sentinel | CardinalityEstimation/src/CEEngine.cpp:39 | definition: the guard bit `1ULL << (64 - p)`, just above the rank bits; `CapRankMeaning` states what it achieves |
| Registers.CapRank | CardinalityEstimation/src/CEEngine.cpp:39 | the `std::min(64 - p, 1 + c)` cap never exceeds 64-p |
| Registers.CapRankMeaning | CardinalityEstimation/src/CEEngine.cpp:39 | the capped count of `hash`'s trailing zeros (the sentinel is OR'd in first) lies in [1, 64-p]; the `rank - 1` low bits of `hash` are clear; below the cap, the next bit is set |
| Registers.Index | CardinalityEstimation/src/CEEngine.cpp:38 | the register index `hash >> (64 - p)` is below 2^p |
| Registers.SameIndexIffSameTopBits | CardinalityEstimation/src/CEEngine.cpp:38 | two hashes select the same register exactly when they differ only below bit 64-p |
| Registers.Rank | CardinalityEstimation/src/CEEngine.cpp:39 | the rank lies in [1, 64-p] and is one more than the number of trailing zeros of the hash, capped at 64-p |
| Registers.Slot | CardinalityEstimation/src/CEEngine.cpp:38 | at precision 14 the index is a valid position in the 16384 registers |
| Registers.RankByte | CardinalityEstimation/src/CEEngine.cpp:39 | at precision 14 the rank fits the `uint8_t` register and lies in [1, 50] |
| Registers.Empty | CardinalityEstimation/src/CEEngine.cpp:25 | the constructed register array has 2^14 entries |
| Registers.RaiseEffect | CardinalityEstimation/src/CEEngine.cpp:40 | the chosen register becomes the larger of its old value and the rank; no register decreases; every other register is unchanged |
| Registers.Raise | CardinalityEstimation/src/CEEngine.cpp:40 | `registers[idx] = std::max(registers[idx], rank)` keeps the array's 2^14 registers; `RaiseEffect` states its contents |
| Registers.Observe | CardinalityEstimation/src/CEEngine.cpp:38-40 | the update for one hash, at its index and rank, keeps 2^14 registers; `ObserveEffect` states its contents |
| Registers.ObserveEffect | CardinalityEstimation/src/CEEngine.cpp:38-40 | the same facts for the register and rank that a hash selects |
| Registers.ObserveIdempotent | CardinalityEstimation/src/CEEngine.cpp:40 | observing the same hash twice equals observing it once |
| Registers.ObserveAbsorbed | CardinalityEstimation/src/CEEngine.cpp:40 | a hash whose register already holds at least its rank changes nothing |
| Registers.RaiseCommutes | CardinalityEstimation/src/CEEngine.cpp:40 | two register updates commute |
| Registers.ObserveCommutes | CardinalityEstimation/src/CEEngine.cpp:38-40 | two observed hashes commute |
| Registers.SketchAppend | CardinalityEstimation/src/CEEngine.cpp:37-40 | one more hash changes the sketch by one update |
| Registers.SketchIsMaxRank | CardinalityEstimation/src/CEEngine.cpp:37-40 | register `i` holds the largest rank among the observed hashes that select it, or 0 if there are none |
| Registers.SketchRecords | CardinalityEstimation/src/CEEngine.cpp:40 | every observed hash has left at least its rank in its register |
| Registers.SketchIgnoresDuplicate | CardinalityEstimation/src/CEEngine.cpp:40 | re-observing a hash already observed leaves the sketch unchanged |
| Registers.SketchInRange | CardinalityEstimation/src/CEEngine.cpp:39-40 | no register ever exceeds 64-p |
| Registers.Sketch | CardinalityEstimation/src/CEEngine.cpp:25 | the sketch always has 2^14 registers |
| Estimator.Pow2 | CardinalityEstimation/src/CEEngine.cpp:55 | powers of two are at least 1 |
| Estimator.InvPow2 | CardinalityEstimation/src/CEEngine.cpp:55 | `2^-r` lies in (0, 1], and is at most 1/2 for a non-zero register |
| Estimator.InvPow2Inverse | CardinalityEstimation/src/CEEngine.cpp:57 | `1.0 / 2^-r` is `2^r` |
| Estimator.SumPow | CardinalityEstimation/src/CEEngine.cpp:56 | `sum` lies between 0 and the number of registers, and is positive for a non-empty array |
| Estimator.SumHarm | CardinalityEstimation/src/CEEngine.cpp:57 | `harmonicMean`, really a sum of `2^r`, is at least the number of registers |
| Estimator.Zeros | CardinalityEstimation/src/CEEngine.cpp:58 | `zeros` is at most the number of registers |
| Estimator.Alpha | CardinalityEstimation/src/CEEngine.cpp:62-68 | the bias constant lies strictly between 0 and 1 for every precision |
| Estimator.RawEstimate | CardinalityEstimation/src/CEEngine.cpp:70 | the raw estimate `alpha * m * m / sum` is positive |
| Estimator.Corrected | CardinalityEstimation/src/CEEngine.cpp:70-84 | each range gives its estimate: small range with zeros gives `m ln(m/zeros)`; small range without zeros and the middle range give the raw estimate; large range gives the minimum with the harmonic estimate. Every estimate is floored at 1 |
| Estimator.ApproxEstimate | CardinalityEstimation/src/CEEngine.cpp:50-84 | the approximate estimate is never below 1 |
| Estimator.AllZero | CardinalityEstimation/src/CEEngine.cpp:54-59 | over all-zero registers, `zeros` and `sum` both equal the number of registers |
| Estimator.ZerosUpdate | CardinalityEstimation/src/CEEngine.cpp:58 | changing one register moves `zeros` by the change in that register's zero-ness |
| Estimator.SumPowUpdate | CardinalityEstimation/src/CEEngine.cpp:56 | changing one register moves `sum` by the difference of its two terms |
| Estimator.SingleObservationSums | CardinalityEstimation/src/CEEngine.cpp:54-59 | after one hash, 16383 registers are zero and `sum` is at least 16383 |
| Estimator.RawBelowSmallRange | CardinalityEstimation/src/CEEngine.cpp:70-73 | with `sum` at least `m - 1`, the raw estimate is in the small range |
| Estimator.SingleObservation | CardinalityEstimation/src/CEEngine.cpp:70-84 | after one hash the estimate is `max(1, m ln(m/(m-1)))` |
| Estimator.SingleObservationBelowTwo | CardinalityEstimation/src/CEEngine.cpp:73-84 | with the natural logarithm's bound `ln x <= x - 1`, that estimate is below 2 |
| ExactCount.DistinctAppend | CardinalityEstimation/src/CEEngine.cpp:29-30 | one more key adds a distinct key exactly when it is new |
| ExactCount.DistinctPrefix | CardinalityEstimation/src/CEEngine.cpp:30 | a prefix of a key stream has no more distinct keys than the whole stream |
| ExactCount.Bump | CardinalityEstimation/src/CEEngine.cpp:29 | `valueFrequency[value]++` grows the map by one entry exactly when the key was absent |
| ExactCount.BumpEffect | CardinalityEstimation/src/CEEngine.cpp:29 | afterwards the key is present with its old count plus one (1 if it was absent), and every other entry is kept |
| ExactCount.Frequencies | CardinalityEstimation/src/CEEngine.cpp:29 | the map after adding the keys in order never holds more keys than were added; `FrequenciesMeaning` states its contents |
| ExactCount.FrequenciesMeaning | CardinalityEstimation/src/CEEngine.cpp:13 | the map holds exactly the keys added, each with the number of times it was added |
| ExactCount.FrequenciesAppend | CardinalityEstimation/src/CEEngine.cpp:29 | adding a key is one increment of the map |
| ExactCount.Overflow | CardinalityEstimation/src/CEEngine.cpp:30-32 | when an increment takes the map past the cap, the key was new and exactly `cap` distinct keys preceded it |
| ExactCount.FrequenciesSize | CardinalityEstimation/src/CEEngine.cpp:46 | the map's size is the number of distinct keys added |
| ExactCount.DuplicateKeepsSize | CardinalityEstimation/src/CEEngine.cpp:29 | adding a key already present leaves the size unchanged |
| ExactCount.FreshKeyGrowsSize | CardinalityEstimation/src/CEEngine.cpp:29 | adding a new key grows the size by one |
| Hll.HashKey | CardinalityEstimation/src/CEEngine.cpp:19-20 | hashing a key's 8 bytes with `XXHash64` gives the single-block hash of the key's value |
| Hll.WordHash | CardinalityEstimation/src/CEEngine.cpp:19-20 | definition: the mixing hash of one 8-byte key, one block pass plus the finaliser; `HashKey` proves it equal to `XXHash64` on the key's bytes |
| Hll.Combine | CardinalityEstimation/src/CEEngine.cpp:21 | definition: `hash1 ^ (hash2 >> 1)` |
| Hll.TupleHash | CardinalityEstimation/src/CEEngine.cpp:17-22 | definition: the key's `WordHash` under seed `0x123456789`, combined with its `WordHash` under seed `0x987654321`; `HashTuple` is proved equal to it |
| Hll.HyperLogLog.constructor | CardinalityEstimation/src/CEEngine.cpp:25 | the new counter has 2^14 zero registers and an empty map, is in exact mode, and has seen nothing |
| Hll.HyperLogLog.HashTuple | CardinalityEstimation/src/CEEngine.cpp:17-22 | the result is the seed-1 hash xor'd with the seed-2 hash shifted right by 1 |
| Hll.HyperLogLog.Add | CardinalityEstimation/src/CEEngine.cpp:27-41 | the invariant is kept and the key joins the history. There are three cases: (1) in exact mode with no overflow, the key's count goes up and no register changes; (2) on overflow, the mode switches, the map is emptied, and the overflowing key is observed; (3) in approximate mode, the key's hash is observed and the mode stays approximate |
| Hll.HyperLogLog.CountExact | CardinalityEstimation/src/CEEngine.cpp:28-35 | the switch happens exactly when the incremented map exceeds 10000 keys. Without a switch the invariant holds with the key counted. With a switch the map is empty, the registers are untouched, and the key was new |
| Hll.HyperLogLog.Record | CardinalityEstimation/src/CEEngine.cpp:37-40 | the registers become the old ones with the hash observed, in place; the approximate-mode invariant holds |
| Hll.HyperLogLog.Estimate | CardinalityEstimation/src/CEEngine.cpp:43-85 | exact mode returns the map's size, which is the number of distinct keys added since the last reset; approximate mode returns the corrected estimate of the registers, at least 1 |
| Hll.HyperLogLog.Reset | CardinalityEstimation/src/CEEngine.cpp:87-91 | every register is 0, the map is empty, the mode is exact and the history is empty: the initial state |
| Hll.ModeIffDistinct | CardinalityEstimation/src/CEEngine.cpp:28-34 | under the invariant, the counter is in exact mode exactly when at most 10000 distinct keys were added since the last reset |
| Engine.WidenBits | CardinalityEstimation/src/CEEngine.cpp:105-106 | widening an `int`: the low half keeps its bit pattern; the high half is all zeros if it is non-negative, all ones if negative |
| Engine.Widen | CardinalityEstimation/src/CEEngine.cpp:105-106 | definition: `static_cast<uint64_t>` of an `int`, its bit pattern sign-extended to 64 bits; `WidenBits` states its halves |
| Engine.Pack | CardinalityEstimation/src/CEEngine.cpp:105-106 | definition: the combined key `(uint64_t)first << 32 \| (uint64_t)second`; `PackNonNegative`, `PackNegative` and `PackInjective` state what it keeps and loses |
| Engine.PackNonNegative | CardinalityEstimation/src/CEEngine.cpp:105-106 | with a non-negative second field the key is `(first mod 2^32) << 32 \| second` |
| Engine.PackInjective | CardinalityEstimation/src/CEEngine.cpp:105-106 | on tuples with a non-negative second field, equal keys mean equal tuples and conversely |
| Engine.PackNegative | CardinalityEstimation/src/CEEngine.cpp:106 | with a negative second field the key's high 32 bits are all ones, whatever the first field |
| Engine.PackCollision | CardinalityEstimation/src/CEEngine.cpp:105-106 | `(a, s)` and `(b, s)` give the same key for every negative `s` |
| Engine.Keys | CardinalityEstimation/src/CEEngine.cpp:102-107 | one key per stored tuple |
| Engine.KeysAt | CardinalityEstimation/src/CEEngine.cpp:105-107 | key `i` is the packing of tuple `i` |
| Engine.KeysPrefix | CardinalityEstimation/src/CEEngine.cpp:103-107 | the keys of a prefix of the tuples are the prefix of the keys |
| Engine.KeysStep | CardinalityEstimation/src/CEEngine.cpp:103-107 | one more tuple of a stream adds its packed key |
| Engine.KeysAppend | CardinalityEstimation/src/CEEngine.cpp:103-107 | appending a tuple appends its packed key |
| Engine.KeySeenIffTupleSeen | CardinalityEstimation/src/CEEngine.cpp:105-106 | without negative second fields, a key occurs exactly when its tuple does |
| Engine.DistinctKeysCountTuples | CardinalityEstimation/src/CEEngine.cpp:102-107 | without negative second fields, there are as many distinct keys as distinct tuples |
| Engine.CollidingTuples | CardinalityEstimation/src/CEEngine.cpp:105-106 | `(1, -1)` and `(2, -1)` are two distinct tuples with one distinct key |
| Engine.Impl.constructor | CardinalityEstimation/src/CEEngine.cpp:100 | a new engine has no tuples and a fresh counter in exact mode |
| Engine.Impl.InsertTuple | CardinalityEstimation/src/CEEngine.cpp:102-108 | the tuple is appended and its packed key is added. Exact mode without overflow increments the key's count and leaves the registers alone. Overflow and approximate mode observe the key's hash. Approximate mode never goes back |
| Engine.Impl.Estimate | CardinalityEstimation/src/CEEngine.cpp:110-112 | exact mode gives the number of distinct packed keys among the stored tuples; otherwise the sketch's estimate, at least 1 |
| Engine.Impl.Prepare | CardinalityEstimation/src/CEEngine.cpp:114-117 | no tuples remain, and the counter is back in its initial state |
| Engine.CollisionEstimate | CardinalityEstimation/src/CEEngine.cpp:102-112 | after inserting `(1, -1)` and `(2, -1)` into a new engine the estimate is 1 |
| Engine.EstimateAfterPrepare | CardinalityEstimation/src/CEEngine.cpp:114-117 | after any tuples and a `prepare`, the estimate is 0 |
| Engine.StaysExact | CardinalityEstimation/src/CEEngine.cpp:28-34 | while a stream has at most 10000 distinct keys, no prefix of it overflows the map |
| Engine.ExactEstimate | CardinalityEstimation/src/CEEngine.cpp:45-47 | a stream with at most 10000 distinct keys is counted exactly; without negative second fields the estimate is the number of distinct tuples |
| Engine.RepeatedEstimate | CardinalityEstimation/src/CEEngine.cpp:102-112 | inserting the same tuple any positive number of times gives the estimate 1 |
| Engine.EngineModeIffDistinct | CardinalityEstimation/src/CEEngine.cpp:102-108 | an engine is in exact mode exactly while its stored tuples have at most 10000 distinct packed keys |
| Engine.OverflowEstimate | CardinalityEstimation/src/CEEngine.cpp:102-112 | a fresh engine given a stream with more than 10000 distinct keys holds the stream, is in approximate mode, and estimates the sketch estimate of its registers, at least 1 |

## Left out

- **Floating point.** `double` arithmetic becomes exact `real` arithmetic, with no rounding. `std::pow(2.0, -r)` becomes an exact power of two.
- **`std::log`.** It becomes the parameter `ln` of the estimate. Its only assumed property, `ln x <= x - 1`, appears as a requirement of `Estimator.SingleObservationBelowTwo`. The statistical accuracy of the estimate is not modelled.
- **Precision.** The engine always constructs the sketch with 14 register bits, and the class is modelled at that precision only. The fields `registerBits` and `numRegisters` are therefore not stored: the class computes with the constants `Registers.P` and `Registers.M`, and `registers.Length` is `M`. `Index`, `Rank` and `Alpha` keep the precision as a parameter. Other values of `HyperLogLog(bits)` are not modelled.
- **Integer widths.** `size_t` counters and the `int` loop index are unbounded. No count in reach of the model overflows them.
- **Memory.** `clear()` freeing memory is not modelled, beyond the map becoming empty.
- **Storage layout.** The `memcpy` word read assumes a little-endian machine.
- **Unaligned access.** It has no counterpart over a byte sequence.
- **The `CEEngine` wrappers.** The pImpl `unique_ptr` and the forwarding wrappers (CardinalityEstimation/src/CEEngine.cpp:120-133) are plumbing; `Engine.Impl` is modelled directly.
- **The second `XXHash64` definition.** CardinalityEstimation/third_party/xxhash/xxhash.h duplicates it with a pointer-cast read, and is not part of this model.
- **Drivers.** CardinalityEstimation/src/main.cpp and CardinalityEstimation/src/test_cardinality.cpp are not part of this model. They use random data, timing and console output, and the latter calls an interface that the header does not declare.
- **Splitting `add`.** `add` is modelled as `Hll.HyperLogLog.Add`, which runs its exact-mode part (`CountExact`) and then, unless it returned, its register update (`Record`). The split is only to keep proofs small; the behaviour is the same.
- **`hashTuple`.** It is a `const` member function; `HashTuple` reads no state.
- **Hashes in the invariant.** `Hll.HyperLogLog.Valid` says the registers are the sketch of the recorded hashes. That each recorded hash is `TupleHash` of its key follows from `Add`'s contract step by step; it is not part of the stored invariant.
