# Sharded key-value store of the mini-redis tutorial server

This project models the storage engine of the tutorial mini-redis server
(`src/bin/server.rs`) and the step that turns each decoded command into a
response frame.

- `ShardedDb` holds a fixed vector of shards. Each shard is a map from
  string keys to byte-string values. A key goes to shard
  `hash(key) % shards.len()`. `insert` overwrites the key in that shard, and
  `get` returns a copy of its value or nothing.
- Each connection handler reads decoded commands one at a time. `SET`
  stores the value and answers `OK`. `GET` answers the value as a bulk
  frame, or a null frame on a miss. Any other command makes the handler
  panic.

Modules:

- `Types`: bytes, the 64-bit hash output, `Option`.
- `ShardedStore`: the store as a value, meaning a sequence of shards plus
  the hash function. It holds the routing function, lookup and insert, and
  the placement invariant: every key sits in the shard its hash selects.
  It also defines `Contents`, the union of all shards, and the lemmas
  showing that a placed sharded store behaves like one map.
- `Server`: the `ShardedDb` class. Its `shards` field is a
  `seq<map<string, Bytes>>` that `Insert` reassigns. Its constructor builds
  the shards with a loop (`NewShards`).
- `Dispatch`: frames, commands and outcomes. `Step` is the pure dispatch,
  and `MapStep` is the same dispatch on one unsharded map, used as the
  reference. `Process` applies one command to a `ShardedDb`. `Session` and
  `Serve` model the per-connection loop, with the connection replaced by a
  list of decoded commands in and a list of written frames out.

The hash function (`DefaultHasher`) is a constant function field of the
store, `hash: string -> u64`. It is given at construction and never changes,
so routing is a fixed function of the key and the shard count. Nothing is
assumed about the hash beyond that.

`ShardedStore.Lookup` is the value-level meaning of `Db::get`: the routed
shard's value for the key, or `None`. `Types.MapLookup` is its helper, and it
stands for `.get(key).map(|value| value.clone())`. Neither function states
anything in its own contract. Their properties are the lemmas in the table
below: `InsertThenLookup`, `LookupMatchesContents` and `EmptyStore`, plus the
contracts of `ShardedDb.Get` and the constructor.

Two behaviours of the code to note:

- An unsupported command makes the handler panic (`panic!` at
  server.rs:93), so the connection's task ends. The model returns
  `Panic(cmd)` with the store unchanged and ends the session there. No
  error frame is written.
- `ShardedDb::new(0)` succeeds, and the constructor accepts 0 too. Routing
  on such a store divides by zero (see "## Left out").

## Model

| member | source | states |
|---|---|---|
| ShardedStore.FindShard | src/bin/server.rs:51-57 | for a store of n > 0 shards the routed index is in [0, n); there is no index when n = 0 (the remainder by zero panics) |
| ShardedStore.Inserted | src/bin/server.rs:61-66 | inserting never changes the number of shards |
| ShardedStore.MergeUpToAt | src/bin/server.rs:14-17 | in a placed store, a key is in the union of the first j shards iff its routed shard is among them and holds it, with that shard's value |
| ShardedStore.LookupMatchesContents | src/bin/server.rs:68-74 | in a placed store, a lookup through the router returns the value the union of all shards holds for the key, or None when no shard holds it |
| ShardedStore.EmptyStore | src/bin/server.rs:42-49 | n > 0 empty shards satisfy the placement invariant, hold nothing, and every lookup returns None |
| ShardedStore.InsertThenLookup | src/bin/server.rs:61-74 | after insert(k, v), looking up k gives Some(v), replacing any earlier value; every other key looks up as before |
| ShardedStore.InsertTouchesOneShard | src/bin/server.rs:61-66 | insert changes only the shard k routes to and, within it, only the entry for k; no key changes shard |
| ShardedStore.InsertRefinesMapUpdate | src/bin/server.rs:61-66 | insert preserves the placement invariant and acts on the union of the shards exactly as the map update m[k := v] |
| Server.NewShards | src/bin/server.rs:43-46 | the loop yields exactly n shards, every one empty |
| Server.ShardedDb.constructor | src/bin/server.rs:42-49 | new(n) has exactly n empty shards and keeps the given hash; for n > 0 the store is valid, holds nothing, and every get misses |
| Server.ShardedDb.Insert | src/bin/server.rs:61-66 | the new shards are the old ones with k bound to v in k's routed shard; get(k) is Some(v), every other key reads as before, the shard count is unchanged, and in a valid store the contents become old contents[k := v] |
| Server.ShardedDb.Get | src/bin/server.rs:68-74 | returns the value k's routed shard holds, or None; in a valid store this is the union's value for k; it changes nothing (no modifies clause) |
| Dispatch.Step | src/bin/server.rs:81-94 | dispatch never changes the shard count; it panics exactly on an unsupported command, and a panic leaves the store unchanged |
| Dispatch.StepRefinesMapStep | src/bin/server.rs:81-93 | on a placed store, dispatch gives the same response as on one unsharded map, keeps the store placed, and leaves the same contents |
| Dispatch.Process | src/bin/server.rs:81-94 | Set answers Simple("OK") and leaves the store equal to insert(k, v); Get answers Bulk(v) exactly when get(k) = Some(v) and Null otherwise, with the store unchanged; any other command panics and changes nothing; on a valid store the result matches the one-map reference |
| Dispatch.Session | src/bin/server.rs:80-97 | without a panic every command gets exactly one frame (which frame: see SessionFrameAt); a panic happens at an unsupported command right after the answered ones and stops the session; the shard count never changes |
| Dispatch.SessionFrameAt | src/bin/server.rs:80-97 | frame j of a session answers command j, dispatched on the shards the earlier commands left |
| Dispatch.SessionAnswersOnlySupported | src/bin/server.rs:81-93 | every command that got a frame before the session stopped is a GET or a SET |
| Dispatch.SessionRefinesMapSession | src/bin/server.rs:80-97 | on a placed store a whole connection writes the same frames, panics at the same point and leaves the same contents as against one unsharded map |
| Dispatch.Serve | src/bin/server.rs:77-98 | the handler loop writes the frames, panics and leaves the store exactly as Session says; on a valid store this equals the one-map reference session |
| Dispatch.OneShardSession | src/bin/server.rs:80-97 | with one shard, SET a 1, SET b 2, GET a, GET b, GET c answers OK, OK, 1, 2, null, and a following DEL panics with the store holding a and b |

## Left out

- ShardedStore.FindShard, Server.ShardedDb.Insert/Get, Dispatch.Process, Dispatch.Serve: these require at least one shard. In the source, `% self.shards.len()` panics on a zero-shard store (src/bin/server.rs:56). The only caller builds 10 shards (src/bin/server.rs:23).
- The TCP listener, the accept loop and `tokio::spawn` (src/bin/server.rs:19-34) are not modelled. They are network I/O and task concurrency; the shard count of 10 used there is just a constructor argument.
- The `Arc` and `Mutex` locking is not modelled. Operations run one after another. Mutual exclusion, per-key linearizability across connections and the non-blocking of distinct shards are therefore not captured.
- `DefaultHasher` is an abstract function `string -> u64` fixed at construction. Its SipHash internals are not modelled.
- The cast `s.finish() as usize` is treated as the identity, as on a 64-bit target. Truncation on a 32-bit target is not modelled.
- `Connection::read_frame`, `write_frame` and the frame encoding are not modelled. They belong to the external `mini_redis` crate. `Serve` takes the already-decoded commands as a list and returns the written frames as a list.
- `Command::from_frame(frame).unwrap()` is not modelled. A malformed frame panics in the source, and this decoding is outside the model. The `.unwrap()` panics on read and write errors are left out too.
- The `mini_redis` commands other than GET and SET are all represented by one `Unsupported(name)` command. They are only ever panicked on.
- The frame kinds the handler never writes (`Error`, `Integer`, `Array`) are not modelled.
- src/bin/client.rs is not part of this model. It is a channel feeding a network client, with no stateful logic of its own.
