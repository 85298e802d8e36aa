/** The frame loop of a connection (src/server/server_app.h), from received bytes to response
    bytes.  Sockets are outside: received chunks are arguments. */
module ServerApps {
  import opened Common
  import opened Buffers
  import opened Framing
  import opened Parser
  import opened Serializer
  import opened Dispatchers
  import opened KvEngines
  import opened ShardManagers
  import opened EvictionManagers
  import opened TtlIndexes
  import opened LruCaches
  import S = ShardStates
  import N = EngineStates

  const SHARDS := 64
  const SHARD_CAPACITY := 10000
  const POLICY_CAPACITY := 10000
  const MAX_MEMORY: uint64 := 256 * 1024 * 1024

  /** The clock readings of the n-th command, and the iteration order of hash tables. */
  datatype World = World(clock: nat -> Readings, scan: set<Key> -> seq<Key>)

  /** The server seen from one connection: the engine, the received bytes that do not make up a
      frame yet, all response bytes produced, and the number of commands executed. */
  datatype Conn = Conn(engine: N.Engine, pending: string, produced: string, turn: nat, open: bool)

  /** Executes one frame; a blank one makes the parser throw, and the connection is dropped. */
  function ServeFrame(c: Conn, frame: string, rest: string, w: World): Conn {
    match ParseResult(frame)
    case None => c.(pending := "", open := false)
    case Some(req) =>
      var at := w.clock(c.turn);
      Conn(EngineAfter(c.engine, req, at), rest,
           c.produced + Serialize(ResponseTo(c.engine, w.scan, req, at)), c.turn + 1, true)
  }

  function Serve(c: Conn, w: World): Conn
    decreases |c.pending|
  {
    if !c.open then c
    else
      match Next(c.pending)
      case None => c
      case Some((frame, rest)) => Serve(ServeFrame(c, frame, rest, w), w)
  }

  /** One read from the socket followed by the frame loop. */
  function Receive(c: Conn, chunk: string, w: World): Conn {
    if !c.open then c else Serve(c.(pending := c.pending + chunk), w)
  }

  /** One round of the frame loop; the frame taken out of the buffer is all that matters of it. */
  lemma {:induction false} ServeRound(c: Conn, w: World)
    requires c.open
    ensures Serve(c, w) == match Next(c.pending)
                           case None => c
                           case Some((frame, rest)) => Serve(ServeFrame(c.(pending := rest), frame, rest, w), w)
  {
    if Next(c.pending).Some? {
      var (frame, rest) := Next(c.pending).value;
      assert ServeFrame(c.(pending := rest), frame, rest, w) == ServeFrame(c, frame, rest, w);
    }
  }

  class Connection {
    const input: Buffer
    const output: Buffer
    var wire: string
    var open: bool

    ghost predicate Valid()
      reads this, input, output
    {
      input != output && input.Valid() && output.Valid()
    }

    ghost function Produced(): string
      requires Valid()
      reads this, input, output
    {
      wire + output.Readable()
    }

    constructor ()
      ensures Valid() && fresh(input) && fresh(output)
      ensures input.Readable() == "" && Produced() == "" && open
    {
      input := new Buffer();
      output := new Buffer();
      wire, open := "", true;
    }

    /** The kernel takes some prefix of the output buffer, possibly nothing. */
    method WriteToSocket()
      requires Valid()
      modifies this`wire, output
      ensures Valid() && Produced() == old(Produced())
    {
      var data := output.Readable();
      var bytes: nat :| bytes <= |data|;
      wire := wire + data[..bytes];
      var _ := output.Consume(bytes);
      assert data == data[..bytes] + data[bytes..];
    }
  }

  class ServerApp {
    const engine: KVEngine
    const dispatcher: Dispatcher
    var turn: nat

    ghost predicate Valid(conn: Connection, w: World)
      reads this, engine, engine.Repr, engine.shardManager, conn, conn.input, conn.output
    {
      && dispatcher.engine == engine && engine.Valid()
      && S.Enumerates(w.scan) && engine.shardManager.scan == w.scan
      && conn.Valid()
      && this !in engine.Repr && conn !in engine.Repr && conn.input !in engine.Repr && conn.output !in engine.Repr
    }

    ghost function State(conn: Connection): Conn
      requires conn.Valid()
      reads this, engine, conn, conn.input, conn.output
    {
      Conn(engine.state, conn.input.Readable(), conn.Produced(), turn, conn.open)
    }

    /** Wires up an empty engine with the limits of the source. */
    constructor (hasher: Key -> nat, scan: set<Key> -> seq<Key>)
      ensures engine.Valid() && fresh(engine.Repr) && dispatcher.engine == engine && this !in engine.Repr
      ensures engine.shardManager.scan == scan && turn == 0
      ensures engine.state == N.EmptyEngine(hasher, 64, 10000, 268435456)
      ensures engine.evictionManager.policy.lru.capacity == 10000
    {
      hide ShardManager.Valid, EvictionManager.Valid, TTLIndex.Valid, LRUCache.Valid, LRUPolicy.Valid, KVEngine.Valid;
      var shards := new ShardManager(SHARDS, SHARD_CAPACITY, hasher, scan);
      var index := new TTLIndex();
      var lru := new LRUCache(POLICY_CAPACITY);
      var policy := new LRUPolicy(lru);
      var tracker := new MemoryTracker(MAX_MEMORY);
      var eviction := new EvictionManager(tracker, policy);
      var e := new KVEngine(shards, index, eviction);
      engine := e;
      dispatcher := new Dispatcher(e);
      turn := 0;
    }

    /** Dispatches one request and sends the response. */
    method Execute(conn: Connection, req: Request, w: World)
      requires Valid(conn, w)
      modifies this`turn, engine.Repr, conn`wire, conn.output
      ensures Valid(conn, w) && fresh(engine.Repr - old(engine.Repr))
      ensures engine.state == EngineAfter(old(engine.state), req, w.clock(old(turn)))
      ensures conn.Produced() ==
              old(conn.Produced()) + Serialize(ResponseTo(old(engine.state), w.scan, req, w.clock(old(turn))))
      ensures turn == old(turn) + 1 && conn.input.Readable() == old(conn.input.Readable())
    {
      hide KVEngine.Valid, EngineAfter, ResponseTo, Serialize;
      var response := dispatcher.Dispatch(req, w.clock(turn));
      turn := turn + 1;
      var wire := Serialize(response);
      conn.output.Append(wire);
      assert conn.Produced() == old(conn.Produced()) + wire;
      conn.WriteToSocket();
    }

    /** Executes the commands in a received chunk. */
    method Process(conn: Connection, chunk: string, w: World)
      requires Valid(conn, w) && conn.open
      modifies this`turn, engine.Repr, conn, conn.input, conn.output
      ensures Valid(conn, w) && fresh(engine.Repr - old(engine.Repr))
      ensures State(conn) == Receive(old(State(conn)), chunk, w)
    {
      hide KVEngine.Valid, EngineAfter, ResponseTo, Next, Tokens, Serialize, Serve;
      conn.input.Append(chunk);
      ghost var c := State(conn);
      ghost var goal := Serve(c, w);
      ServeRound(c, w);
      var ok, frame := NextFrame(conn.input);
      c := State(conn);
      while ok
        invariant Valid(conn, w) && fresh(engine.Repr - old(engine.Repr)) && conn.open
        invariant c == State(conn)
        invariant goal == if ok then Serve(ServeFrame(c, frame, c.pending, w), w) else c
        decreases ok, |conn.input.Readable()|
      {
        var request := Parse(frame);
        if request.Thrown? {
          // the exception ends the connection: nothing it received later is looked at
          conn.input.Clear();
          conn.open := false;
          ServeClosed(State(conn), w);
          return;
        }
        Execute(conn, request.value, w);
        c := ServeFrame(c, frame, c.pending, w);
        assert c == State(conn);
        ServeRound(c, w);
        ok, frame := NextFrame(conn.input);
        c := State(conn);
      }
    }
  }

  lemma {:induction false} ServeClosed(c: Conn, w: World)
    requires !c.open
    ensures Serve(c, w) == c
  {
  }
}
