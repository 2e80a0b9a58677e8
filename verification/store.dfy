/**
 * The state of a `ShardedDb` as a value: a sequence of shards, each a map
 * from keys to byte strings, together with the hash function that routes a
 * key to its shard. The class in module Server is specified by these
 * functions, and the lemmas here say what the sharding guarantees: every
 * key lives in the shard its hash selects, and the shards together behave
 * like one map.
 */
module ShardedStore {
  import opened Types

  /** The `HashMap<String, Bytes>` behind one shard's lock. */
  type Shard = map<string, Bytes>

  /**
   * The index of the shard that holds `key` in a store of `n` shards:
   * the key's hash reduced modulo the shard count. A store with no shards
   * has no index to give (the remainder by zero panics).
   */
  function FindShard(hash: string -> u64, n: nat, key: string): (i: nat)
    requires n > 0
    ensures i < n
  {
    hash(key) as int % n
  }

  /** The value stored for `key` in the shard it routes to, if any. */
  function Lookup(shards: seq<Shard>, hash: string -> u64, key: string): Option<Bytes>
    requires |shards| > 0
  {
    MapLookup(shards[FindShard(hash, |shards|, key)], key)
  }

  /** The shards after `key` is bound to `value` in the shard it routes to. */
  function Inserted(shards: seq<Shard>, hash: string -> u64, key: string, value: Bytes): (r: seq<Shard>)
    requires |shards| > 0
    ensures |r| == |shards|
  {
    var i := FindShard(hash, |shards|, key);
    shards[i := shards[i][key := value]]
  }

  /** Every shard is an empty map. */
  ghost predicate AllEmpty(shards: seq<Shard>)
  {
    forall j | 0 <= j < |shards| :: shards[j] == map[]
  }

  /**
   * The store invariant: there is at least one shard, and every key
   * present in shard `j` routes to `j`.
   */
  ghost predicate Placed(shards: seq<Shard>, hash: string -> u64)
  {
    && |shards| > 0
    && forall j, k | 0 <= j < |shards| && k in shards[j] :: FindShard(hash, |shards|, k) == j
  }

  /** The union of the first `j` shards. */
  ghost function MergeUpTo(shards: seq<Shard>, j: nat): map<string, Bytes>
    requires j <= |shards|
  {
    if j == 0 then map[] else MergeUpTo(shards, j - 1) + shards[j - 1]
  }

  /** The whole store seen as one map: the union of all shards. */
  ghost function Contents(shards: seq<Shard>): map<string, Bytes>
  {
    MergeUpTo(shards, |shards|)
  }

  /**
   * In a placed store a key occurs in the union of the first `j` shards
   * exactly when its own shard is among them and holds it, and then with
   * that shard's value.
   */
  lemma {:induction false} MergeUpToAt(shards: seq<Shard>, hash: string -> u64, j: nat, key: string)
    requires Placed(shards, hash) && j <= |shards|
    ensures var i := FindShard(hash, |shards|, key);
            && (key in MergeUpTo(shards, j) <==> i < j && key in shards[i])
            && (key in MergeUpTo(shards, j) ==> MergeUpTo(shards, j)[key] == shards[i][key])
  {
    if j > 0 {
      MergeUpToAt(shards, hash, j - 1, key);
    }
  }

  /**
   * Reading through the router gives the same answer as reading the union
   * of all shards: sharding is invisible to a reader.
   */
  lemma LookupMatchesContents(shards: seq<Shard>, hash: string -> u64, key: string)
    requires Placed(shards, hash)
    ensures Lookup(shards, hash, key) == MapLookup(Contents(shards), key)
  {
    MergeUpToAt(shards, hash, |shards|, key);
  }

  /** A store of `n > 0` empty shards satisfies the invariant and holds nothing. */
  lemma EmptyStore(shards: seq<Shard>, hash: string -> u64)
    requires |shards| > 0 && AllEmpty(shards)
    ensures Placed(shards, hash)
    ensures Contents(shards) == map[]
    ensures forall key :: Lookup(shards, hash, key) == None
  {
    forall key
      ensures key !in Contents(shards)
    {
      MergeUpToAt(shards, hash, |shards|, key);
    }
  }

  /**
   * Insert acts on `key` alone: afterwards `key` reads back as `value`,
   * whatever it held before, and every other key reads as it did.
   */
  lemma InsertThenLookup(shards: seq<Shard>, hash: string -> u64, key: string, value: Bytes, other: string)
    requires |shards| > 0
    ensures Lookup(Inserted(shards, hash, key, value), hash, other)
            == if other == key then Some(value) else Lookup(shards, hash, other)
  {
  }

  /**
   * Insert changes only the shard `key` routes to, and within it only the
   * entry for `key`; the shard count stays the same, so every key keeps
   * its route.
   */
  lemma InsertTouchesOneShard(shards: seq<Shard>, hash: string -> u64, key: string, value: Bytes)
    requires |shards| > 0
    ensures var r := Inserted(shards, hash, key, value);
            var i := FindShard(hash, |shards|, key);
            && (forall j | 0 <= j < |shards| && j != i :: r[j] == shards[j])
            && r[i].Keys == shards[i].Keys + {key}
            && (forall k | k in shards[i] && k != key :: r[i][k] == shards[i][k])
            && (forall k :: FindShard(hash, |r|, k) == FindShard(hash, |shards|, k))
  {
  }

  /**
   * Insert keeps the store invariant, and on the store seen as one map it
   * is exactly the map update `m[key := value]`.
   */
  lemma InsertRefinesMapUpdate(shards: seq<Shard>, hash: string -> u64, key: string, value: Bytes)
    requires Placed(shards, hash)
    ensures Placed(Inserted(shards, hash, key, value), hash)
    ensures Contents(Inserted(shards, hash, key, value)) == Contents(shards)[key := value]
  {
    var r := Inserted(shards, hash, key, value);
    var i := FindShard(hash, |shards|, key);
    forall j, k | 0 <= j < |r| && k in r[j]
      ensures FindShard(hash, |r|, k) == j
    {
      if j != i || k != key {
        assert k in shards[j];
      }
    }
    assert Placed(r, hash);
    forall k
      ensures k in Contents(r) <==> k in Contents(shards)[key := value]
      ensures k in Contents(r) ==> Contents(r)[k] == Contents(shards)[key := value][k]
    {
      MergeUpToAt(r, hash, |r|, k);
      MergeUpToAt(shards, hash, |shards|, k);
    }
  }
}
