/**
 * What the connection handler does with each decoded command: `Set`
 * stores the value and answers `OK`, `Get` answers with the value or with
 * a null frame, and every other command makes the handler panic. The
 * decoded commands arrive in order and the answers are written in order,
 * until the first panic ends the connection's task.
 */
module Dispatch {
  import opened Types
  import opened ShardedStore
  import opened Server

  /** The response frames this handler writes. */
  datatype Frame = Simple(text: string) | Bulk(data: Bytes) | Null

  /**
   * A decoded request. `Unsupported` stands for every command other than
   * GET and SET (publish, subscribe, unsubscribe, unknown), named by it.
   */
  datatype Command =
    | Get(key: string)
    | Set(key: string, value: Bytes)
    | Unsupported(name: string)

  /** What handling one command yields: a frame to write, or a panic. */
  datatype Outcome = Reply(frame: Frame) | Panic(command: Command)

  /**
   * One pass of the handler's `match` on a store given by its shards:
   * the outcome and the shards afterwards. The shard count never changes,
   * and a panic happens exactly for an unsupported command and leaves the
   * store as it was.
   */
  function Step(shards: seq<Shard>, hash: string -> u64, cmd: Command): (r: (Outcome, seq<Shard>))
    requires |shards| > 0
    ensures |r.1| == |shards|
    ensures r.0.Panic? <==> cmd.Unsupported?
    ensures r.0.Panic? ==> r.1 == shards
  {
    match cmd
    case Set(key, value) => (Reply(Simple("OK")), Inserted(shards, hash, key, value))
    case Get(key) =>
      var found := Lookup(shards, hash, key);
      (if found.Some? then Reply(Bulk(found.value)) else Reply(Null), shards)
    case Unsupported(_) => (Panic(cmd), shards)
  }

  /**
   * The same dispatch on a store kept in one unsharded map: the reference
   * that the sharded store must be indistinguishable from.
   */
  function MapStep(m: map<string, Bytes>, cmd: Command): (Outcome, map<string, Bytes>)
  {
    match cmd
    case Set(key, value) => (Reply(Simple("OK")), m[key := value])
    case Get(key) => (if key in m then Reply(Bulk(m[key])) else Reply(Null), m)
    case Unsupported(_) => (Panic(cmd), m)
  }

  /**
   * On a placed store, dispatching a command gives the same outcome as on
   * the one-map reference, keeps the store placed, and leaves it holding
   * what the reference holds.
   */
  lemma StepRefinesMapStep(shards: seq<Shard>, hash: string -> u64, cmd: Command)
    requires Placed(shards, hash)
    ensures Placed(Step(shards, hash, cmd).1, hash)
    ensures Step(shards, hash, cmd).0 == MapStep(Contents(shards), cmd).0
    ensures Contents(Step(shards, hash, cmd).1) == MapStep(Contents(shards), cmd).1
  {
    match cmd
    case Set(key, value) =>
      InsertRefinesMapUpdate(shards, hash, key, value);
    case Get(key) =>
      LookupMatchesContents(shards, hash, key);
    case Unsupported(_) =>
  }

  /**
   * The body of the `match` in `process` applied to the shared store:
   * `Set` inserts and answers `Simple("OK")`; `Get` answers `Bulk(v)`
   * exactly when the key holds `v`, and `Null` otherwise, changing
   * nothing; any other command panics and changes nothing.
   */
  method Process(db: ShardedDb, cmd: Command) returns (out: Outcome)
    requires |db.shards| > 0
    modifies db
    ensures (out, db.shards) == Step(old(db.shards), db.hash, cmd)
    ensures cmd.Set? ==>
              && out == Reply(Simple("OK"))
              && db.shards == Inserted(old(db.shards), db.hash, cmd.key, cmd.value)
    ensures cmd.Get? ==>
              && db.shards == old(db.shards)
              && (forall v :: out == Reply(Bulk(v)) <==> Lookup(db.shards, db.hash, cmd.key) == Some(v))
              && (out == Reply(Null) <==> Lookup(db.shards, db.hash, cmd.key) == None)
    ensures cmd.Unsupported? ==> out == Panic(cmd) && db.shards == old(db.shards)
    ensures old(db.Valid()) ==>
              && db.Valid()
              && (out, db.Contents()) == MapStep(old(db.Contents()), cmd)
  {
    match cmd {
      case Set(key, value) =>
        db.Insert(key, value);
        out := Reply(Simple("OK"));
      case Get(key) =>
        var found := db.Get(key);
        if found.Some? {
          out := Reply(Bulk(found.value));
        } else {
          out := Reply(Null);
        }
      case Unsupported(_) =>
        out := Panic(cmd);
    }
  }

  /**
   * The frames a connection writes for the decoded commands `cmds`, in
   * order, whether the handler panicked, and the shards afterwards. The
   * first unsupported command panics, which ends the connection's task
   * with nothing written for it or for the commands after it. Every
   * command before the panic is answered by exactly one frame.
   */
  function Session(shards: seq<Shard>, hash: string -> u64, cmds: seq<Command>): (r: (seq<Frame>, bool, seq<Shard>))
    requires |shards| > 0
    ensures |r.2| == |shards|
    ensures !r.1 ==> |r.0| == |cmds|
    ensures r.1 ==> |r.0| < |cmds| && cmds[|r.0|].Unsupported?
    decreases |cmds|
  {
    if cmds == [] then ([], false, shards)
    else
      var (out, next) := Step(shards, hash, cmds[0]);
      match out
      case Panic(_) => ([], true, shards)
      case Reply(frame) =>
        var rest := Session(next, hash, cmds[1..]);
        ([frame] + rest.0, rest.1, rest.2)
  }

  /** Every command that got a frame in a session is a GET or a SET. */
  lemma {:induction false} SessionAnswersOnlySupported(shards: seq<Shard>, hash: string -> u64, cmds: seq<Command>, j: nat)
    requires |shards| > 0 && j < |Session(shards, hash, cmds).0|
    ensures cmds[j].Get? || cmds[j].Set?
    decreases |cmds|
  {
    var next := Step(shards, hash, cmds[0]).1;
    if j > 0 {
      SessionAnswersOnlySupported(next, hash, cmds[1..], j - 1);
    }
  }

  /** The shards after every command of `cmds` has been dispatched in turn. */
  function After(shards: seq<Shard>, hash: string -> u64, cmds: seq<Command>): (r: seq<Shard>)
    requires |shards| > 0
    ensures |r| == |shards|
    decreases |cmds|
  {
    if cmds == [] then shards else After(Step(shards, hash, cmds[0]).1, hash, cmds[1..])
  }

  /**
   * Frame `j` of a session is the answer to command `j`, given on the
   * store that the commands before it have left.
   */
  lemma {:induction false} SessionFrameAt(shards: seq<Shard>, hash: string -> u64, cmds: seq<Command>, j: nat)
    requires |shards| > 0 && j < |Session(shards, hash, cmds).0|
    ensures Step(After(shards, hash, cmds[..j]), hash, cmds[j]).0 == Reply(Session(shards, hash, cmds).0[j])
    decreases |cmds|
  {
    var next := Step(shards, hash, cmds[0]).1;
    if j > 0 {
      SessionFrameAt(next, hash, cmds[1..], j - 1);
      assert cmds[..j][0] == cmds[0] && cmds[..j][1..] == cmds[1..][..j - 1];
    } else {
      assert cmds[..0] == [];
    }
  }

  /** The same session run against the one-map reference store. */
  function MapSession(m: map<string, Bytes>, cmds: seq<Command>): (seq<Frame>, bool, map<string, Bytes>)
    decreases |cmds|
  {
    if cmds == [] then ([], false, m)
    else
      var (out, next) := MapStep(m, cmds[0]);
      match out
      case Panic(_) => ([], true, m)
      case Reply(frame) =>
        var rest := MapSession(next, cmds[1..]);
        ([frame] + rest.0, rest.1, rest.2)
  }

  /**
   * A whole connection against a placed sharded store writes the same
   * frames, panics at the same point and leaves the same bindings as
   * against the one-map reference.
   */
  lemma {:induction false} SessionRefinesMapSession(shards: seq<Shard>, hash: string -> u64, cmds: seq<Command>)
    requires Placed(shards, hash)
    ensures Placed(Session(shards, hash, cmds).2, hash)
    ensures Session(shards, hash, cmds).0 == MapSession(Contents(shards), cmds).0
    ensures Session(shards, hash, cmds).1 == MapSession(Contents(shards), cmds).1
    ensures Contents(Session(shards, hash, cmds).2) == MapSession(Contents(shards), cmds).2
    decreases |cmds|
  {
    if cmds != [] {
      StepRefinesMapStep(shards, hash, cmds[0]);
      var (out, next) := Step(shards, hash, cmds[0]);
      if out.Reply? {
        SessionRefinesMapSession(next, hash, cmds[1..]);
      }
    }
  }

  /** A session whose first command is answered goes on with the rest. */
  lemma SessionReply(shards: seq<Shard>, hash: string -> u64, cmds: seq<Command>, frame: Frame)
    requires |shards| > 0 && cmds != [] && Step(shards, hash, cmds[0]).0 == Reply(frame)
    ensures var rest := Session(Step(shards, hash, cmds[0]).1, hash, cmds[1..]);
            Session(shards, hash, cmds) == ([frame] + rest.0, rest.1, rest.2)
  {
  }

  /** A session whose first command panics writes nothing and changes nothing. */
  lemma SessionPanic(shards: seq<Shard>, hash: string -> u64, cmds: seq<Command>)
    requires |shards| > 0 && cmds != [] && Step(shards, hash, cmds[0]).0.Panic?
    ensures Session(shards, hash, cmds) == ([], true, shards)
  {
  }

  /**
   * The `while let` loop of `process`, with the connection replaced by its
   * inputs and outputs: `cmds` is the stream of decoded commands the peer
   * sends, `written` the frames written back. The loop stops at the first
   * panic or when the stream ends.
   */
  method Serve(db: ShardedDb, cmds: seq<Command>) returns (written: seq<Frame>, panicked: bool)
    requires |db.shards| > 0
    modifies db
    ensures (written, panicked, db.shards) == Session(old(db.shards), db.hash, cmds)
    ensures old(db.Valid()) ==>
              && db.Valid()
              && (written, panicked, db.Contents()) == MapSession(old(db.Contents()), cmds)
  {
    ghost var whole := Session(db.shards, db.hash, cmds);
    written, panicked := [], false;
    var i := 0;
    assert cmds[i..] == cmds && written + whole.0 == whole.0;
    while i < |cmds| && !panicked
      invariant 0 <= i <= |cmds|
      invariant |db.shards| == |old(db.shards)|
      invariant !panicked ==>
                  var rest := Session(db.shards, db.hash, cmds[i..]);
                  whole == (written + rest.0, rest.1, rest.2)
      invariant panicked ==> whole == (written, true, db.shards)
      decreases |cmds| - i, !panicked
    {
      ghost var before := db.shards;
      ghost var rest := cmds[i..];
      assert rest[0] == cmds[i] && rest[1..] == cmds[i + 1..];
      var out := Process(db, cmds[i]);
      match out {
        case Reply(frame) =>
          ghost var tail := Session(db.shards, db.hash, cmds[i + 1..]);
          assert whole == ((written + [frame]) + tail.0, tail.1, tail.2) by {
            SessionReply(before, db.hash, rest, frame);
            assert written + ([frame] + tail.0) == (written + [frame]) + tail.0;
          }
          written := written + [frame];
          i := i + 1;
        case Panic(_) =>
          assert whole == (written, true, db.shards) by {
            SessionPanic(before, db.hash, rest);
            assert written + [] == written;
          }
          panicked := true;
      }
    }
    if !panicked {
      assert cmds[i..] == [] && written + [] == written;
    }
    if old(db.Valid()) {
      SessionRefinesMapSession(old(db.shards), db.hash, cmds);
    }
  }

  /**
   * A one-shard store: SET a 1, SET b 2, GET a, GET b, GET c is answered
   * OK, OK, 1, 2 and null, and a following DEL ends the connection with
   * the store still holding a and b.
   */
  lemma OneShardSession(hash: string -> u64)
    ensures var cmds := [Set("a", [49]), Set("b", [50]), Get("a"), Get("b"), Get("c"), Unsupported("DEL")];
            var r := Session([map[]], hash, cmds);
            && r.0 == [Simple("OK"), Simple("OK"), Bulk([49]), Bulk([50]), Null]
            && r.1
            && r.2 == [map["a" := [49], "b" := [50]]]
  {
  }
}
