/**
 * The server's shared store, `ShardedDb`: a fixed number of shards, each a
 * map from keys to values, and a hash function that picks the shard for a
 * key. The locks around the shards are not modelled; operations run one
 * after another.
 */
module Server {
  import opened Types
  import opened ShardedStore

  /**
   * Builds `n` empty shards by pushing one empty map at a time onto a
   * vector, as `ShardedDb::new` does before wrapping the vector.
   */
  method NewShards(n: nat) returns (shards: seq<Shard>)
    ensures |shards| == n
    ensures AllEmpty(shards)
  {
    shards := [];
    for i := 0 to n
      invariant |shards| == i
      invariant AllEmpty(shards)
    {
      shards := shards + [map[]];
    }
  }

  class ShardedDb {
    /** The process's `DefaultHasher`, fixed for the lifetime of the store. */
    const hash: string -> u64
    /** The shards; their number never changes after construction. */
    var shards: seq<Shard>

    /** Every key sits in the shard its hash selects, and there is a shard. */
    ghost predicate Valid()
      reads this
    {
      Placed(shards, hash)
    }

    /** All the store's bindings, whatever shard holds them. */
    ghost function Contents(): map<string, Bytes>
      reads this
    {
      ShardedStore.Contents(shards)
    }

    /**
     * `ShardedDb::new(numShards)`: exactly `numShards` shards, all empty.
     * Zero shards is accepted here, as in the source; such a store cannot
     * route any key.
     */
    constructor (numShards: nat, hash: string -> u64)
      ensures this.hash == hash
      ensures |shards| == numShards && AllEmpty(shards)
      ensures numShards > 0 ==> Valid() && Contents() == map[]
      ensures numShards > 0 ==> forall key :: Lookup(shards, hash, key) == None
    {
      var s := NewShards(numShards);
      this.hash := hash;
      shards := s;
      new;
      if numShards > 0 {
        EmptyStore(s, hash);
      }
    }

    /**
     * `Db::insert`: binds `key` to `value` in the shard `key` routes to,
     * replacing any earlier value there. Every other key reads as before,
     * and the number of shards does not change.
     */
    method Insert(key: string, value: Bytes)
      requires |shards| > 0
      modifies this
      ensures shards == Inserted(old(shards), hash, key, value)
      ensures |shards| == |old(shards)|
      ensures Lookup(shards, hash, key) == Some(value)
      ensures forall k :: k != key ==> Lookup(shards, hash, k) == Lookup(old(shards), hash, k)
      ensures old(Valid()) ==> Valid() && Contents() == old(Contents())[key := value]
    {
      var i := FindShard(hash, |shards|, key);
      shards := shards[i := shards[i][key := value]];
      forall k | k != key
        ensures Lookup(shards, hash, k) == Lookup(old(shards), hash, k)
      {
        InsertThenLookup(old(shards), hash, key, value, k);
      }
      if old(Valid()) {
        InsertRefinesMapUpdate(old(shards), hash, key, value);
      }
    }

    /**
     * `Db::get`: a copy of the value bound to `key` in its shard, or
     * nothing. It changes no shard (it has no modifies clause); in a valid
     * store the answer is the one the union of all shards gives.
     */
    method Get(key: string) returns (r: Option<Bytes>)
      requires |shards| > 0
      ensures r == Lookup(shards, hash, key)
      ensures Valid() ==> r == MapLookup(Contents(), key)
    {
      var shard := shards[FindShard(hash, |shards|, key)];
      if key in shard {
        r := Some(shard[key]);
      } else {
        r := None;
      }
      if Valid() {
        LookupMatchesContents(shards, hash, key);
      }
    }
  }
}
