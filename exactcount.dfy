/**
 * The exact-mode bookkeeping of the sketch: `valueFrequency`, a map from
 * every key seen to the number of times it was added. The key type is a
 * parameter; the sketch uses it with 64-bit keys.
 */
module ExactCount {

  /** The keys occurring in `keys`. */
  function Distinct<K(!new)>(keys: seq<K>): set<K> {
    set k | k in keys
  }

  /** One more key adds one distinct key exactly when it is new. */
  lemma DistinctAppend<K(!new)>(keys: seq<K>, k: K)
    ensures Distinct(keys + [k]) == Distinct(keys) + {k}
    ensures |Distinct(keys + [k])| == if k in keys then |Distinct(keys)| else |Distinct(keys)| + 1
  {
    assert Distinct(keys + [k]) == Distinct(keys) + {k};
  }

  /** A prefix of the keys has at most as many distinct keys as the whole. */
  lemma {:induction false} DistinctPrefix<K(!new)>(keys: seq<K>, i: nat)
    requires i <= |keys|
    ensures |Distinct(keys[..i])| <= |Distinct(keys)|
    decreases |keys| - i
  {
    if i < |keys| {
      DistinctPrefix(keys, i + 1);
      assert keys[..i + 1] == keys[..i] + [keys[i]];
      DistinctAppend(keys[..i], keys[i]);
    } else {
      assert keys[..i] == keys;
    }
  }

  /**
   * `valueFrequency[value]++` on an `std::unordered_map`: an absent key is
   * inserted with count 0 and then incremented. The map grows by one entry
   * exactly when the key was absent.
   */
  function Bump<K(!new)>(f: map<K, nat>, k: K): (g: map<K, nat>)
    ensures |g| == if k in f then |f| else |f| + 1
  {
    f[k := if k in f then f[k] + 1 else 1]
  }

  /**
   * After a `Bump` the key is present with one more than its old count (1 if
   * it was absent), and every other entry is as it was.
   */
  lemma BumpEffect<K(!new)>(f: map<K, nat>, k: K)
    ensures forall j :: j in Bump(f, k) <==> j in f || j == k
    ensures Bump(f, k)[k] == (if k in f then f[k] else 0) + 1
    ensures forall j :: j in f && j != k ==> Bump(f, k)[j] == f[j]
  {
  }

  /**
   * The map after adding `keys` in order to an empty one. It never tracks
   * more keys than were added.
   */
  function Frequencies<K(!new)>(keys: seq<K>): (f: map<K, nat>)
    ensures |f| <= |keys|
  {
    if keys == [] then map[]
    else Bump(Frequencies(keys[..|keys| - 1]), keys[|keys| - 1])
  }

  /**
   * The map holds exactly the keys added, each with the number of times it
   * was added.
   */
  lemma {:induction false} FrequenciesMeaning<K(!new)>(keys: seq<K>)
    ensures forall k :: k in Frequencies(keys) <==> k in keys
    ensures forall k :: k in Frequencies(keys) ==> Frequencies(keys)[k] == multiset(keys)[k]
  {
    if keys != [] {
      var init, last := keys[..|keys| - 1], keys[|keys| - 1];
      assert keys == init + [last];
      FrequenciesMeaning(init);
      BumpEffect(Frequencies(init), last);
    }
  }

  /** Adding one more key is one `Bump` of the map. */
  lemma FrequenciesAppend<K(!new)>(keys: seq<K>, k: K)
    ensures Frequencies(keys + [k]) == Bump(Frequencies(keys), k)
  {
    assert (keys + [k])[..|keys|] == keys;
  }

  /**
   * If a `Bump` takes a map of at most `cap` keys past `cap`, the key was
   * new and exactly `cap` distinct keys had been added before it.
   */
  lemma Overflow<K(!new)>(keys: seq<K>, k: K, cap: nat)
    requires |Frequencies(keys)| <= cap < |Bump(Frequencies(keys), k)|
    ensures k !in keys
    ensures |Distinct(keys)| == cap
  {
    FrequenciesMeaning(keys);
    FrequenciesSize(keys);
  }

  /** The size of the map is the number of distinct keys added. */
  lemma FrequenciesSize<K(!new)>(keys: seq<K>)
    ensures |Frequencies(keys)| == |Distinct(keys)|
  {
    FrequenciesMeaning(keys);
    assert Frequencies(keys).Keys == Distinct(keys);
  }

  /** Adding a key already present leaves the number of distinct keys as it was. */
  lemma DuplicateKeepsSize<K(!new)>(keys: seq<K>, k: K)
    requires k in keys
    ensures |Frequencies(keys + [k])| == |Frequencies(keys)|
  {
    FrequenciesMeaning(keys);
    FrequenciesAppend(keys, k);
  }

  /** Adding a new key raises the number of distinct keys by one. */
  lemma FreshKeyGrowsSize<K(!new)>(keys: seq<K>, k: K)
    requires k !in keys
    ensures |Frequencies(keys + [k])| == |Frequencies(keys)| + 1
  {
    FrequenciesMeaning(keys);
    FrequenciesAppend(keys, k);
  }
}
