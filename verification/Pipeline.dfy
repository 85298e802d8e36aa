/** What a client of one connection can rely on, from the bytes it sends to the bytes it gets. */
module Pipeline {
  import opened Common
  import opened Sequences
  import opened Framing
  import opened Parser
  import opened Serializer
  import opened Dispatchers
  import opened ServerApps
  import opened KvEngines
  import opened Listings
  import opened PlainServers
  import S = ShardStates
  import Entries
  import N = EngineStates
  import T = EngineTheorems

  function Concat(chunks: seq<string>): string {
    if chunks == [] then "" else chunks[0] + Concat(chunks[1..])
  }

  function ReceiveAll(c: Conn, chunks: seq<string>, w: World): Conn
    decreases |chunks|
  {
    if chunks == [] then c else ReceiveAll(Receive(c, chunks[0], w), chunks[1..], w)
  }

  // ----- The reference: requests one after the other, no bytes -----

  /** The engine after a list of requests, and the responses in request order. */
  function Execute(e: N.Engine, reqs: seq<Request>, turn: nat, w: World): (r: (N.Engine, seq<Response>))
    ensures |r.1| == |reqs|
    decreases |reqs|
  {
    if reqs == [] then (e, [])
    else
      var at := w.clock(turn);
      var rest := Execute(EngineAfter(e, reqs[0], at), reqs[1..], turn + 1, w);
      (rest.0, [ResponseTo(e, w.scan, reqs[0], at)] + rest.1)
  }

  /** The requests of a list of frames, up to the first blank frame. */
  function Requests(frames: seq<string>): seq<Request> {
    if frames == [] then []
    else
      match ParseResult(frames[0])
      case None => []
      case Some(req) => [req] + Requests(frames[1..])
  }

  /** What a connection looks like after a byte stream has been received in one piece. */
  function AtOnce(c: Conn, stream: string, w: World): Conn {
    var (frames, rest) := Drain(stream);
    var reqs := Requests(frames);
    var (engine, responses) := Execute(c.engine, reqs, c.turn, w);
    var whole := |reqs| == |frames|;
    Conn(engine, if whole then rest else "", c.produced + SerializeAll(responses), c.turn + |reqs|, whole)
  }

  lemma {:induction false} ServeIsAtOnce(c: Conn, w: World)
    requires c.open
    ensures Serve(c, w) == AtOnce(c, c.pending, w)
    decreases |c.pending|
  {
    hide EngineAfter, ResponseTo, Serialize, Next, ParseResult;
    match Next(c.pending)
    case None =>
      assert c.produced + SerializeAll([]) == c.produced;
    case Some((frame, rest)) =>
      var c' := ServeFrame(c, frame, rest, w);
      var d := Drain(rest);
      assert Drain(c.pending) == ([frame] + d.0, d.1);
      assert ([frame] + d.0)[1..] == d.0;
      match ParseResult(frame)
      case None =>
        assert c.produced + SerializeAll([]) == c.produced;
        ServeClosed(c', w);
      case Some(req) =>
        ServeIsAtOnce(c', w);
        var reqs, at := Requests(d.0), w.clock(c.turn);
        assert ([req] + reqs)[1..] == reqs;
        var r, rs := ResponseTo(c.engine, w.scan, req, at), Execute(c'.engine, reqs, c'.turn, w).1;
        assert ([r] + rs)[1..] == rs;
        assert c.produced + (Serialize(r) + SerializeAll(rs)) == c.produced + Serialize(r) + SerializeAll(rs);
  }

  // ----- Chunking -----

  lemma {:induction false} NextAppend(a: string, b: string)
    requires Next(a).Some?
    ensures Next(a + b) == Some((Next(a).value.0, Next(a).value.1 + b))
  {
    hide FirstCrlf;
    NextSplits(a);
    var (frame, rest) := Next(a).value;
    var s := a + b;
    assert s == frame + CRLF + (rest + b);
    FirstCrlfOfFrame(frame, rest + b);
    assert s[..|frame|] == frame && s[|frame| + 2..] == rest + b;
  }

  /** Bytes that arrive later may as well have been there from the start. */
  lemma {:induction false} ServeAppend(c: Conn, b: string, w: World)
    requires c.open
    ensures Serve(c.(pending := c.pending + b), w) == Receive(Serve(c, w), b, w)
    decreases |c.pending|
  {
    hide EngineAfter, ResponseTo, Serialize, Next, ParseResult;
    match Next(c.pending)
    case None =>
    case Some((frame, rest)) =>
      NextAppend(c.pending, b);
      var c' := ServeFrame(c, frame, rest, w);
      var joined := ServeFrame(c.(pending := c.pending + b), frame, rest + b, w);
      if c'.open {
        assert joined == c'.(pending := c'.pending + b);
        ServeAppend(c', b, w);
      } else {
        assert joined == c';
      }
  }

  lemma {:induction false} ReceiveTwice(c: Conn, a: string, b: string, w: World)
    ensures Receive(Receive(c, a, w), b, w) == Receive(c, a + b, w)
  {
    hide Serve;
    if c.open {
      ServeAppend(c.(pending := c.pending + a), b, w);
      assert c.pending + a + b == c.pending + (a + b);
    }
  }

  /** Nothing is left to do until more bytes arrive; so it is after every read. */
  predicate Quiet(c: Conn) {
    c.open ==> Next(c.pending) == None
  }

  lemma {:induction false} ReceiveAllAtOnce(c: Conn, chunks: seq<string>, w: World)
    requires Quiet(c)
    ensures ReceiveAll(c, chunks, w) == Receive(c, Concat(chunks), w)
    decreases |chunks|
  {
    hide Next, EngineAfter, ResponseTo;
    if chunks == [] {
      assert c.pending + "" == c.pending;
    } else {
      ReceiveKeepsQuiet(c, chunks[0], w);
      ReceiveAllAtOnce(Receive(c, chunks[0], w), chunks[1..], w);
      ReceiveTwice(c, chunks[0], Concat(chunks[1..]), w);
    }
  }

  lemma {:induction false} ReceiveKeepsQuiet(c: Conn, chunk: string, w: World)
    ensures Quiet(Receive(c, chunk, w))
  {
    if c.open { ServeEndsQuiet(c.(pending := c.pending + chunk), w); }
  }

  lemma {:induction false} ServeEndsQuiet(c: Conn, w: World)
    ensures Quiet(Serve(c, w))
    decreases |c.pending|
  {
    hide EngineAfter, ResponseTo, Serialize, Next, ParseResult;
    if !c.open || Next(c.pending) == None {
    } else {
      var (frame, rest) := Next(c.pending).value;
      ServeEndsQuiet(ServeFrame(c, frame, rest, w), w);
    }
  }

  /** Responses, final engine state and point of connection drop depend only on the bytes received,
      not on how they were cut into reads: they are those of executing, one after the other, the
      requests of the stream's frames up to the first blank one. */
  lemma {:induction false} ChunkingIndependence(c: Conn, chunks: seq<string>, w: World)
    requires c.open && Quiet(c)
    ensures ReceiveAll(c, chunks, w) == AtOnce(c, c.pending + Concat(chunks), w)
  {
    hide Serve;
    ReceiveAllAtOnce(c, chunks, w);
    ServeIsAtOnce(c.(pending := c.pending + Concat(chunks)), w);
  }

  /** A dropped connection executes nothing any more. */
  lemma {:induction false} DroppedStaysDropped(c: Conn, chunks: seq<string>, w: World)
    requires !c.open
    ensures ReceiveAll(c, chunks, w) == c
    decreases |chunks|
  {
    if chunks == [] {
    } else {
      DroppedStaysDropped(c, chunks[1..], w);
    }
  }

  /** The server and one client of it, from start-up: reads until the connection is dropped. */
  method ServeChunks(hasher: Key -> nat, chunks: seq<string>, w: World) returns (app: ServerApp, conn: Connection)
    requires S.Enumerates(w.scan)
    ensures app.Valid(conn, w)
    ensures var start := Conn(N.EmptyEngine(hasher, 64, 10000, 268435456), "", "", 0, true);
            && app.State(conn) == ReceiveAll(start, chunks, w)
            && app.State(conn) == AtOnce(start, Concat(chunks), w)
  {
    hide KVEngine.Valid, AtOnce, Receive, S.Enumerates;
    app := new ServerApp(hasher, w.scan);
    conn := new Connection();
    ghost var start := Conn(N.EmptyEngine(hasher, 64, 10000, 268435456), "", "", 0, true);
    assert app.State(conn) == start;
    NothingPending();
    ChunkingIndependence(start, chunks, w);
    assert "" + Concat(chunks) == Concat(chunks);
    var i := 0;
    while i < |chunks| && conn.open
      invariant 0 <= i <= |chunks|
      invariant app.Valid(conn, w) && fresh(app) && fresh(app.engine.Repr)
      invariant fresh(conn) && fresh(conn.input) && fresh(conn.output)
      invariant ReceiveAll(app.State(conn), chunks[i..], w) == ReceiveAll(start, chunks, w)
    {
      assert chunks[i..][0] == chunks[i] && chunks[i..][1..] == chunks[i + 1..];
      app.Process(conn, chunks[i], w);
      i := i + 1;
    }
    if !conn.open { DroppedStaysDropped(app.State(conn), chunks[i..], w); }
  }

  // ----- From requests to decoded responses -----

  function Frames(reqs: seq<Request>): seq<string> {
    if reqs == [] then [] else [PrintRequest(reqs[0])] + Frames(reqs[1..])
  }

  lemma {:induction false} ArgsHaveNoCr(args: seq<string>)
    requires forall i :: 0 <= i < |args| ==> Word(args[i])
    ensures '\r' !in PrintArgs(args)
  {
    if args == [] {
    } else {
      ArgsHaveNoCr(args[1..]);
      assert '\r' !in args[0];
    }
  }

  lemma {:induction false} FramesReadBack(reqs: seq<Request>)
    requires forall i :: 0 <= i < |reqs| ==> Plain(reqs[i])
    ensures Requests(Frames(reqs)) == reqs && |Frames(reqs)| == |reqs|
    ensures forall f :: f in Frames(reqs) ==> Flat(f)
  {
    if reqs == [] {
    } else {
      var r := reqs[0];
      assert Plain(r) && forall i :: 0 <= i < |reqs[1..]| ==> reqs[1..][i] == reqs[i + 1];
      FramesReadBack(reqs[1..]);
      ParseInvertsPrint(r);
      ArgsHaveNoCr(r.args);
      var f := PrintRequest(r);
      assert '\r' !in r.command;
      assert '\r' !in f;
      assert Flat(f);
      assert Frames(reqs)[1..] == Frames(reqs[1..]);
    }
  }

  lemma {:induction false} ResponsesSendable(e: N.Engine, reqs: seq<Request>, turn: nat, w: World)
    ensures forall r :: r in Execute(e, reqs, turn, w).1 ==> Sendable(r)
    decreases |reqs|
  {
    hide EngineAfter, ResponseTo, Sendable;
    if reqs == [] {
    } else {
      var at := w.clock(turn);
      ResponsesAreSendable(e, w.scan, reqs[0], at);
      ResponsesSendable(EngineAfter(e, reqs[0], at), reqs[1..], turn + 1, w);
    }
  }

  /** End to end: a client that sends any list of requests made of words, one per line and cut into
      reads in any way, decodes exactly one response per request, in order, and they are those of
      executing the requests one after the other. */
  lemma {:induction false} EndToEnd(e: N.Engine, turn: nat, reqs: seq<Request>, chunks: seq<string>, w: World)
    requires forall i :: 0 <= i < |reqs| ==> Plain(reqs[i])
    requires Concat(chunks) == Print(Frames(reqs))
    ensures var c := ReceiveAll(Conn(e, "", "", turn, true), chunks, w);
            var (engine, responses) := Execute(e, reqs, turn, w);
            && c == Conn(engine, "", SerializeAll(responses), turn + |reqs|, true)
            && DecodeAll(c.produced) == Some(responses)
            && |responses| == |reqs|
  {
    hide Execute, Requests, Frames, SerializeAll, DecodeAll, Print, Drain, FirstCrlf, Sendable;
    var c, stream := Conn(e, "", "", turn, true), Print(Frames(reqs));
    assert Quiet(c) by { NothingPending(); }
    ChunkingIndependence(c, chunks, w);
    FramesReadBack(reqs);
    DrainInvertsPrint(Frames(reqs), "");
    assert stream + "" == stream && "" + Concat(chunks) == stream;
    ResponsesSendable(e, reqs, turn, w);
    var responses := Execute(e, reqs, turn, w).1;
    StreamDecodes(responses);
    assert "" + SerializeAll(responses) == SerializeAll(responses);
  }

  lemma {:induction false} NothingPending()
    ensures Next("") == None
  {
  }

  // ----- Round trips -----

  lemma {:induction false} ExecuteTwo(e: N.Engine, a: Request, b: Request, turn: nat, w: World)
    ensures var e' := EngineAfter(e, a, w.clock(turn));
            Execute(e, [a, b], turn, w).1 ==
            [ResponseTo(e, w.scan, a, w.clock(turn)), ResponseTo(e', w.scan, b, w.clock(turn + 1))]
  {
  }

  /** The answer to a read right after a write. */
  lemma {:induction false} AnswerAfterWrite(e: N.Engine, op: N.Op, now: uint64)
    requires T.Valid(e) && (op.Set? || op.SetWithTTL?)
    ensures N.Answer(N.Apply(e, op), op.key, now) ==
            if T.Written(op).IsExpired(now) then None else Some(op.value)
  {
    T.ApplyValid(e, op);
    T.WrittenIsStored(e, op);
  }

  /** Storing and reading back, from any well-formed engine state: in particular from every
      reachable one. */
  lemma {:induction false} SetThenGet(e: N.Engine, turn: nat, k: Key, v: Value, w: World)
    requires T.Valid(e)
    ensures Execute(e, [Request("SET", [k, v]), Request("GET", [k])], turn, w).1 == [Ok(""), Ok(v)]
  {
    hide N.Apply, N.Answer;
    ExecuteTwo(e, Request("SET", [k, v]), Request("GET", [k]), turn, w);
    AnswerAfterWrite(e, N.Set(k, v, w.clock(turn).now), w.clock(turn + 1).now);
  }

  /** The same on the wire, byte for byte, for all keys and values without one of the six characters
      of white space; `digits` is the length of the value, written as usual. */
  lemma {:induction false} SetThenGetOnTheWire(
    e: N.Engine, turn: nat, k: Key, v: Value, digits: string, chunks: seq<string>, w: World)
    requires T.Valid(e)
    requires k != "" && v != "" && forall c :: c in k + v ==> c !in " \t\n\U{0B}\U{0C}\r"
    requires Numeral(digits) && Number(digits) == |v|
    requires Concat(chunks) == "SET " + k + " " + v + "\r\nGET " + k + "\r\n"
    ensures ReceiveAll(Conn(e, "", "", turn, true), chunks, w).produced ==
            "+OK\r\n" + ("$" + digits + "\r\n" + v + "\r\n")
  {
    hide Plain, Print, Frames, Execute, SerializeAll, Serialize, ReceiveAll, PrintRequest, T.Valid, Word;
    hide Numeral, Number;
    TwoWords(k, v);
    var set0, get := Request("SET", [k, v]), Request("GET", [k]);
    SetThenGet(e, turn, k, v, w);
    CommandsAreWords();
    PrintWrite(k, v);
    PrintOfKey("GET", k);
    TwoOnTheWire(e, turn, set0, get, chunks, w);
    ResponseBytes(v, digits);
    OkBytes();
  }

  /** Deleting and reading back, from any well-formed engine state. */
  lemma {:induction false} DelThenGet(e: N.Engine, turn: nat, k: Key, w: World)
    requires T.Valid(e)
    ensures Execute(e, [Request("DEL", [k]), Request("GET", [k])], turn, w).1 == [Ok(""), Error("Key not found")]
  {
    ExecuteTwo(e, Request("DEL", [k]), Request("GET", [k]), turn, w);
    T.DropsLeaveNoTrace(e, N.Delete(k), k);
  }

  /** The same on the wire, byte for byte. */
  lemma {:induction false} DelThenGetOnTheWire(e: N.Engine, turn: nat, k: Key, chunks: seq<string>, w: World)
    requires T.Valid(e) && k != "" && forall c :: c in k ==> c !in " \t\n\U{0B}\U{0C}\r"
    requires Concat(chunks) == "DEL " + k + "\r\nGET " + k + "\r\n"
    ensures ReceiveAll(Conn(e, "", "", turn, true), chunks, w).produced ==
            "+OK\r\n" + ("-ERR" + "Key not found" + "\r\n")
  {
    hide Plain, Print, Frames, Execute, SerializeAll, Serialize, ReceiveAll, PrintRequest, T.Valid, Word;
    hide IsSpace, Separated, Join;
    WordHoldsNoneOfSix(k);
    var del, get := Request("DEL", [k]), Request("GET", [k]);
    DelThenGet(e, turn, k, w);
    CommandsAreWords();
    PrintOfKey("DEL", k);
    PrintOfKey("GET", k);
    TwoOnTheWire(e, turn, del, get, chunks, w);
    DelLines(k);
    OkBytes();
    ErrorBytes("Key not found");
  }

  lemma {:induction false} OkBytes()
    ensures Serialize(Ok("")) == "+OK\r\n"
  {
  }

  lemma {:induction false} ErrorBytes(message: string)
    ensures Serialize(Error(message)) == "-ERR" + message + "\r\n"
  {
  }

  lemma {:induction false} DelLines(k: Key)
    ensures "DEL " + k + "\r\nGET " + k + "\r\n" == "DEL" + " " + k + "\r\n" + ("GET" + " " + k + "\r\n")
  {
    assert "DEL " + k == "DEL" + " " + k;
    assert "\r\n" + ("GET" + " " + k + "\r\n") == "\r\nGET " + k + "\r\n";
  }

  /** Two requests, one line each: their two responses. */
  lemma {:induction false} TwoOnTheWire(
    e: N.Engine, turn: nat, a: Request, b: Request, chunks: seq<string>, w: World)
    requires Plain(a) && Plain(b)
    requires Concat(chunks) == PrintRequest(a) + "\r\n" + (PrintRequest(b) + "\r\n")
    ensures var rs := Execute(e, [a, b], turn, w).1;
            && |rs| == 2
            && ReceiveAll(Conn(e, "", "", turn, true), chunks, w).produced == Serialize(rs[0]) + Serialize(rs[1])
  {
    hide Plain, Print, Frames, Execute, SerializeAll, Serialize, ReceiveAll, PrintRequest;
    FramesOfTwo(a, b);
    EndToEnd(e, turn, [a, b], chunks, w);
    SerializedTwo(Execute(e, [a, b], turn, w).1);
  }

  lemma {:induction false} TwoWords(k: Key, v: Value)
    requires k != "" && v != "" && forall c :: c in k + v ==> c !in " \t\n\U{0B}\U{0C}\r"
    ensures Word(k) && Word(v)
  {
    forall c | c in k ensures c in k + v { }
    forall c | c in v ensures c in k + v { }
    WordHoldsNoneOfSix(k);
    WordHoldsNoneOfSix(v);
  }

  lemma {:induction false} FramesOfTwo(a: Request, b: Request)
    ensures Print(Frames([a, b])) == PrintRequest(a) + CRLF + (PrintRequest(b) + CRLF)
  {
    var f, g := PrintRequest(a), PrintRequest(b);
    assert [a, b][1..] == [b] && [b][1..] == [];
    assert Frames([b]) == [g] + Frames([]) == [g];
    assert Frames([a, b]) == [f] + [g];
    PrintCons(f, [g]);
    PrintCons(g, []);
    assert [g] + [] == [g];
  }

  lemma {:induction false} CommandsAreWords()
    ensures Word("SET") && Word("GET") && Word("DEL")
  {
  }

  lemma {:induction false} PrintOfKey(command: string, k: Key)
    requires Word(command) && Word(k)
    ensures Plain(Request(command, [k])) && PrintRequest(Request(command, [k])) == command + " " + k
  {
    assert [k][1..] == [] && PrintArgs([]) == "";
    assert PrintArgs([k]) == " " + k + "" == " " + k;
    assert command + (" " + k) == command + " " + k;
  }

  lemma {:induction false} PrintWrite(k: Key, v: Value)
    requires Word(k) && Word(v)
    ensures Plain(Request("SET", [k, v])) && PrintRequest(Request("SET", [k, v])) == "SET " + k + " " + v
  {
    assert [k, v][1..] == [v] && [v][1..] == [] && PrintArgs([]) == "";
    assert PrintArgs([v]) == " " + v + "" == " " + v;
    assert "SET" + (" " + k + (" " + v)) == "SET " + k + " " + v;
  }

  lemma {:induction false} SerializedTwo(rs: seq<Response>)
    requires |rs| == 2
    ensures SerializeAll(rs) == Serialize(rs[0]) + Serialize(rs[1])
  {
    hide Serialize;
    assert rs[1..][0] == rs[1] && rs[1..][1..] == [];
    assert SerializeAll(rs[1..]) == Serialize(rs[1]) + "" == Serialize(rs[1]);
  }

  /** With a TTL the value is read back as long as it has not expired, and not found afterwards. */
  lemma {:induction false} SetExThenGet(e: N.Engine, turn: nat, k: Key, ttl: uint64, v: Value, w: World)
    requires T.Valid(e) && ttl > 0
    ensures var a, b := w.clock(turn), w.clock(turn + 1);
            Execute(e, [Request("SETEX", [k, Decimal(ttl), v]), Request("GET", [k])], turn, w).1 ==
            [Ok(""), if Entries.NewEntryWithTTL(v, ttl, a.now).IsExpired(b.now) then Error("Key not found") else Ok(v)]
  {
    hide N.Apply, N.Answer;
    var at := w.clock(turn);
    TtlOfDecimal(ttl);
    ExecuteTwo(e, Request("SETEX", [k, Decimal(ttl), v]), Request("GET", [k]), turn, w);
    AnswerAfterWrite(e, N.SetWithTTL(k, v, ttl, at.now, at.later), w.clock(turn + 1).now);
  }

  // ----- The engine behind the wire -----

  /** The engine operations that a list of requests stands for. */
  function Operations(reqs: seq<Request>, turn: nat, w: World): seq<N.Op>
    decreases |reqs|
  {
    if reqs == [] then []
    else
      var rest := Operations(reqs[1..], turn + 1, w);
      match Operation(reqs[0], w.clock(turn))
      case None => rest
      case Some(op) => [op] + rest
  }

  lemma {:induction false} RunFront(e: N.Engine, op: N.Op, ops: seq<N.Op>)
    ensures N.Run(e, [op] + ops) == N.Run(N.Apply(e, op), ops)
    decreases |ops|
  {
    hide N.Apply;
    var all := [op] + ops;
    if ops == [] {
      assert all[..0] == [];
    } else {
      var n := |ops| - 1;
      assert all[..|all| - 1] == [op] + ops[..n];
      RunFront(e, op, ops[..n]);
    }
  }

  lemma {:induction false} ExecuteIsRun(e: N.Engine, reqs: seq<Request>, turn: nat, w: World)
    ensures Execute(e, reqs, turn, w).0 == N.Run(e, Operations(reqs, turn, w))
    decreases |reqs|
  {
    hide N.Apply, Operation, ResponseTo;
    if reqs == [] {
    } else {
      var at := w.clock(turn);
      ExecuteIsRun(EngineAfter(e, reqs[0], at), reqs[1..], turn + 1, w);
      if Operation(reqs[0], at).Some? {
        RunFront(e, Operation(reqs[0], at).value, Operations(reqs[1..], turn + 1, w));
      }
    }
  }

  lemma {:induction false} ExecuteSnoc(e: N.Engine, reqs: seq<Request>, last: Request, turn: nat, w: World)
    ensures var r, at := Execute(e, reqs, turn, w), w.clock(turn + |reqs|);
            Execute(e, reqs + [last], turn, w) ==
            (EngineAfter(r.0, last, at), r.1 + [ResponseTo(r.0, w.scan, last, at)])
    decreases |reqs|
  {
    hide EngineAfter, ResponseTo;
    if reqs == [] {
      ExecuteOne(e, last, turn, w);
      assert reqs + [last] == [last] && Execute(e, reqs, turn, w) == (e, []);
      assert [] + [ResponseTo(e, w.scan, last, w.clock(turn))] == [ResponseTo(e, w.scan, last, w.clock(turn))];
    } else {
      var at := w.clock(turn);
      var e', r := EngineAfter(e, reqs[0], at), ResponseTo(e, w.scan, reqs[0], at);
      assert (reqs + [last])[1..] == reqs[1..] + [last];
      ExecuteSnoc(e', reqs[1..], last, turn + 1, w);
      var rest := Execute(e', reqs[1..], turn + 1, w);
      var z := ResponseTo(rest.0, w.scan, last, w.clock(turn + |reqs|));
      assert [r] + (rest.1 + [z]) == [r] + rest.1 + [z];
    }
  }

  lemma {:induction false} OperationsSnoc(reqs: seq<Request>, last: Request, turn: nat, w: World)
    ensures Operations(reqs + [last], turn, w) ==
            match Operation(last, w.clock(turn + |reqs|))
            case None => Operations(reqs, turn, w)
            case Some(op) => Operations(reqs, turn, w) + [op]
    decreases |reqs|
  {
    hide Operation;
    if reqs == [] {
      assert [] + [last] == [last] && [last][1..] == [];
    } else {
      assert (reqs + [last])[1..] == reqs[1..] + [last];
      OperationsSnoc(reqs[1..], last, turn + 1, w);
    }
  }

  /** No request runs expiry or eviction processing. */
  lemma {:induction false} RequestsNeverSweep(reqs: seq<Request>, turn: nat, w: World)
    ensures forall op :: op in Operations(reqs, turn, w) ==> !op.ProcessExpired? && !op.ProcessEvictions?
    decreases |reqs|
  {
    hide TtlArgument;
    if reqs == [] {
    } else {
      RequestsNeverSweep(reqs[1..], turn + 1, w);
    }
  }

  // ----- The server is a plain map -----

  /** The plain map after a list of requests. */
  function PlainAfter(reqs: seq<Request>, turn: nat, w: World): PlainMap {
    if reqs == [] then map[]
    else
      var n := |reqs| - 1;
      After(PlainAfter(reqs[..n], turn, w), reqs[n], w.clock(turn + n))
  }

  /** Every response is one that the plain map allows at its turn. */
  ghost predicate AllLegal(reqs: seq<Request>, rs: seq<Response>, turn: nat, w: World, complete: bool) {
    && |rs| == |reqs|
    && forall i :: 0 <= i < |reqs| ==>
         Legal(PlainAfter(reqs[..i], turn, w), reqs[i], w.clock(turn + i), rs[i], complete)
  }

  lemma {:induction false} AllLegalSnoc(
    reqs: seq<Request>, rs: seq<Response>, last: Request, r: Response, turn: nat, w: World, complete: bool)
    requires AllLegal(reqs, rs, turn, w, complete)
    requires Legal(PlainAfter(reqs, turn, w), last, w.clock(turn + |reqs|), r, complete)
    ensures AllLegal(reqs + [last], rs + [r], turn, w, complete)
  {
    hide Legal, PlainAfter;
    var all := reqs + [last];
    forall i | 0 <= i < |all|
      ensures Legal(PlainAfter(all[..i], turn, w), all[i], w.clock(turn + i), (rs + [r])[i], complete)
    {
      if i < |reqs| {
        assert all[..i] == reqs[..i];
      } else {
        assert all[..i] == reqs;
      }
    }
  }

  /** The plain map holds the last writes of the engine's history. */
  lemma {:induction false} PlainAfterIsLastWrite(reqs: seq<Request>, turn: nat, w: World, k: Key)
    ensures Lookup(PlainAfter(reqs, turn, w), k) == T.LastWrite(Operations(reqs, turn, w), k)
  {
    hide After, Operation;
    if reqs == [] {
    } else {
      var n := |reqs| - 1;
      assert reqs == reqs[..n] + [reqs[n]];
      PlainAfterIsLastWrite(reqs[..n], turn, w, k);
      OperationIsAfter(PlainAfter(reqs[..n], turn, w), Operations(reqs[..n], turn, w), reqs[n], w.clock(turn + n), k);
      OperationsSnoc(reqs[..n], reqs[n], turn, w);
    }
  }

  lemma {:induction false} FindIsPlainAnswer(reqs: seq<Request>, turn: nat, w: World, k: Key, now: uint64)
    ensures Find(PlainAfter(reqs, turn, w), k, now) == T.PlainAnswer(Operations(reqs, turn, w), k, now)
  {
    hide Operations, PlainAfter;
    PlainAfterIsLastWrite(reqs, turn, w, k);
  }

  /** One more request. */
  lemma {:induction false} OneMoreLegal(e: N.Engine, reqs: seq<Request>, turn: nat, w: World, complete: bool)
    requires T.Valid(e) && T.Current(e, []) && S.Enumerates(w.scan) && reqs != []
    requires AllLegal(reqs[..|reqs| - 1], Execute(e, reqs[..|reqs| - 1], turn, w).1, turn, w, complete)
    requires complete ==> CompleteBeforeLast(e, reqs, turn, w)
    ensures AllLegal(reqs, Execute(e, reqs, turn, w).1, turn, w, complete)
  {
    hide T.Valid, T.Current, S.Enumerates, Execute, Legal, PlainAfter, ResponseTo, EngineAfter;
    hide AllLegal, Within, Complete, TicksAfter;
    var n := |reqs| - 1;
    var before, last := reqs[..n], reqs[n];
    assert reqs == before + [last];
    ExecuteSnoc(e, before, last, turn, w);
    StateIsWithin(e, before, turn, w);
    var (b, rs) := Execute(e, before, turn, w);
    var at := w.clock(turn + n);
    ResponseIsLegal(b, w.scan, PlainAfter(before, turn, w), last, at, complete);
    AllLegalSnoc(before, rs, last, ResponseTo(b, w.scan, last, at), turn, w, complete);
  }

  /** When the last request is executed, the engine finds all that the plain map has. */
  ghost predicate CompleteBeforeLast(e: N.Engine, reqs: seq<Request>, turn: nat, w: World)
    requires reqs != []
  {
    var before, at := reqs[..|reqs| - 1], w.clock(turn + |reqs| - 1);
    exists since: uint64 ::
      Complete(Execute(e, before, turn, w).0, PlainAfter(before, turn, w), since) && TicksAfter(at, since)
  }

  /** No stale answers on the wire: whatever a client sends and whatever is evicted or expires, every
      response is allowed by the plain map, except that keys may be missing. */
  lemma {:induction false} WireNeverStale(e: N.Engine, reqs: seq<Request>, turn: nat, w: World)
    requires T.Valid(e) && T.Current(e, []) && S.Enumerates(w.scan)
    ensures AllLegal(reqs, Execute(e, reqs, turn, w).1, turn, w, false)
  {
    hide T.Valid, T.Current, S.Enumerates, Execute, AllLegal;
    if reqs == [] {
      NothingToExecute(e, turn, w, false);
    } else {
      WireNeverStale(e, reqs[..|reqs| - 1], turn, w);
      OneMoreLegal(e, reqs, turn, w, false);
    }
  }

  lemma {:induction false} StateIsWithin(e: N.Engine, reqs: seq<Request>, turn: nat, w: World)
    requires T.Valid(e) && T.Current(e, [])
    ensures T.Valid(Execute(e, reqs, turn, w).0)
    ensures Within(Execute(e, reqs, turn, w).0, PlainAfter(reqs, turn, w))
  {
    hide T.Valid, T.Current, Execute, Operations, PlainAfter, N.Run, N.Answer, Find, T.PlainAnswer;
    var b, m, ops := Execute(e, reqs, turn, w).0, PlainAfter(reqs, turn, w), Operations(reqs, turn, w);
    ExecuteIsRun(e, reqs, turn, w);
    T.RunValid(e, ops);
    forall k, now: uint64 | N.Answer(b, k, now).Some? ensures N.Answer(b, k, now) == Find(m, k, now) {
      T.NoStaleAnswers(e, ops, k, now);
      FindIsPlainAnswer(reqs, turn, w, k, now);
    }
  }

  /** The clock does not run backwards from one request to the next, nor within one. */
  ghost predicate Advances(w: World, turn: nat, n: nat) {
    && (forall i :: turn <= i < turn + n ==>
          w.clock(i).now <= w.clock(i).later && TicksAfter(w.clock(i), w.clock(i).now))
    && (forall i, j :: turn <= i < j < turn + n ==> w.clock(i).later <= w.clock(j).now)
  }

  lemma {:induction false} NothingToExecute(e: N.Engine, turn: nat, w: World, complete: bool)
    ensures AllLegal([], Execute(e, [], turn, w).1, turn, w, complete)
  {
  }

  lemma {:induction false} AdvancesBefore(w: World, turn: nat, n: nat)
    requires Advances(w, turn, n + 1)
    ensures Advances(w, turn, n)
    ensures w.clock(turn + n).now <= w.clock(turn + n).later && TicksAfter(w.clock(turn + n), w.clock(turn + n).now)
    ensures n > 0 ==> w.clock(turn + n - 1).later <= w.clock(turn + n).now
  {
  }

  lemma {:induction false} MonotoneSnoc(ops: seq<N.Op>, req: Request, at: Readings)
    requires T.Monotone(ops) && T.Clock(ops) <= at.now <= at.later
    ensures var all := match Operation(req, at) case None => ops case Some(op) => ops + [op];
            T.Monotone(all) && T.Clock(all) <= at.later
  {
    hide TtlArgument;
    if Operation(req, at).Some? {
      var op := Operation(req, at).value;
      assert (ops + [op])[..|ops|] == ops && (ops + [op])[|ops|] == op;
    }
  }

  lemma {:induction false} OperationsAdvance(reqs: seq<Request>, turn: nat, w: World)
    requires Advances(w, turn, |reqs|)
    ensures T.Monotone(Operations(reqs, turn, w))
    ensures forall j :: 0 <= j < |reqs| ==> T.Clock(Operations(reqs[..j], turn, w)) <= w.clock(turn + j).now
    ensures reqs != [] ==> T.Clock(Operations(reqs, turn, w)) <= w.clock(turn + |reqs| - 1).later
  {
    hide Operations, Operation, T.Monotone, T.Clock, Advances, TicksAfter;
    if reqs == [] {
      NoOperations(turn, w);
    } else {
      var n := |reqs| - 1;
      var before, at := reqs[..n], w.clock(turn + n);
      assert reqs == before + [reqs[n]];
      AdvancesBefore(w, turn, n);
      OperationsAdvance(before, turn, w);
      OperationsSnoc(before, reqs[n], turn, w);
      if before == [] { NoOperations(turn, w); }
      var ops := Operations(before, turn, w);
      assert T.Clock(ops) <= at.now;
      forall j | 0 <= j < |reqs| ensures T.Clock(Operations(reqs[..j], turn, w)) <= w.clock(turn + j).now {
        if j < n { assert reqs[..j] == before[..j]; }
      }
      MonotoneSnoc(ops, reqs[n], at);
    }
  }

  lemma {:induction false} NoOperations(turn: nat, w: World)
    ensures Operations([], turn, w) == [] && T.Clock([]) == 0 && T.Monotone([])
  {
  }

  /** Exact refinement on the wire: when the requests' history keeps what is live, every response,
      listings included, is that of the plain map. */
  lemma {:induction false} WireIsPlainMap(e: N.Engine, reqs: seq<Request>, turn: nat, w: World)
    requires T.Valid(e) && T.Current(e, []) && S.Enumerates(w.scan) && Advances(w, turn, |reqs|)
    requires T.KeepsLiveThroughout(e, Operations(reqs, turn, w))
    ensures AllLegal(reqs, Execute(e, reqs, turn, w).1, turn, w, true)
  {
    hide T.Valid, T.Current, T.KeepsLiveThroughout, S.Enumerates, Advances, CompleteBeforeLast, AllLegal;
    hide Execute, Operations;
    if reqs == [] {
      NothingToExecute(e, turn, w, true);
    } else {
      var n := |reqs| - 1;
      AdvancesBefore(w, turn, n);
      KeepsLiveBefore(e, reqs, turn, w);
      WireIsPlainMap(e, reqs[..n], turn, w);
      StateIsComplete(e, reqs, turn, w);
      OneMoreLegal(e, reqs, turn, w, true);
    }
  }

  lemma {:induction false} KeepsLiveBefore(e: N.Engine, reqs: seq<Request>, turn: nat, w: World)
    requires T.Valid(e) && reqs != [] && T.KeepsLiveThroughout(e, Operations(reqs, turn, w))
    ensures T.KeepsLiveThroughout(e, Operations(reqs[..|reqs| - 1], turn, w))
  {
    hide Operations, Operation;
    var n := |reqs| - 1;
    var before, last := reqs[..n], reqs[n];
    assert reqs == before + [last];
    OperationsSnoc(before, last, turn, w);
    var ops, op := Operations(before, turn, w), Operation(last, w.clock(turn + n));
    if op.Some? { assert (ops + [op.value])[..|ops|] == ops; }
  }

  lemma {:induction false} StateIsComplete(e: N.Engine, reqs: seq<Request>, turn: nat, w: World)
    requires T.Valid(e) && T.Current(e, []) && Advances(w, turn, |reqs|) && reqs != []
    requires T.KeepsLiveThroughout(e, Operations(reqs[..|reqs| - 1], turn, w))
    ensures CompleteBeforeLast(e, reqs, turn, w)
  {
    hide T.Valid, T.Current, T.KeepsLiveThroughout, T.PlainAnswer, Execute, Operations, PlainAfter, Find;
    hide N.Run, N.Answer;
    var before, at := reqs[..|reqs| - 1], w.clock(turn + |reqs| - 1);
    var b, m, ops := Execute(e, before, turn, w).0, PlainAfter(before, turn, w), Operations(before, turn, w);
    OperationsAdvance(before, turn, w);
    OperationsAdvance(reqs, turn, w);
    ExecuteIsRun(e, before, turn, w);
    T.RefinesPlainMap(e, ops);
    T.AgreesNow(e, ops);
    var since := T.Clock(ops);
    forall k, now: uint64 | since <= now ensures N.Answer(b, k, now) == Find(m, k, now) {
      FindIsPlainAnswer(before, turn, w, k, now);
    }
    assert since <= at.now;
    assert TicksAfter(at, since);
  }

  /** With shards large enough for the keys written that is so whatever the TTLs are. */
  lemma {:induction false} WireIsPlainMapWhenFitting(e: N.Engine, reqs: seq<Request>, turn: nat, w: World)
    requires T.Valid(e) && T.Current(e, []) && S.Enumerates(w.scan) && Advances(w, turn, |reqs|)
    requires T.Fits(e, Operations(reqs, turn, w))
    ensures AllLegal(reqs, Execute(e, reqs, turn, w).1, turn, w, true)
  {
    hide T.Valid, T.Current, T.Fits, T.Monotone, Advances, S.Enumerates, AllLegal, Execute, Operations;
    var ops := Operations(reqs, turn, w);
    RequestsNeverSweep(reqs, turn, w);
    OperationsAdvance(reqs, turn, w);
    assert forall i :: 0 <= i < |ops| ==> ops[i] in ops;
    T.RefinesPlainMapWhenFitting(e, ops);
    T.RefinesPlainMap(e, ops);
    WireIsPlainMap(e, reqs, turn, w);
  }

  lemma {:induction false} WrittenAreNamed(reqs: seq<Request>, turn: nat, w: World)
    ensures T.WrittenKeys(Operations(reqs, turn, w)) <= Named(reqs)
  {
    hide TtlArgument;
    if reqs == [] {
    } else {
      var n := |reqs| - 1;
      var before, last, at := reqs[..n], reqs[n], w.clock(turn + n);
      assert reqs == before + [last];
      WrittenAreNamed(before, turn, w);
      OperationsSnoc(before, last, turn, w);
      forall k | k in Named(before) ensures k in Named(reqs) {
        var i :| 0 <= i < n && (before[i].command == "SET" || before[i].command == "SETEX") && before[i].args != []
          && before[i].args[0] == k;
        assert reqs[i] == before[i];
      }
      if Operation(last, at).Some? {
        var ops, op := Operations(before, turn, w), Operation(last, at).value;
        assert (ops + [op])[..|ops|] == ops;
      }
    }
  }

  /** The server as it is started, from bytes to bytes: any list of requests of words that name at most
      10000 different keys to write, cut into reads in any way, yields bytes that decode to one
      response per request, and every one of them is that of the plain map. */
  lemma {:induction false} ServerIsPlainMap(hash: Key -> nat, reqs: seq<Request>, chunks: seq<string>, w: World)
    requires forall i :: 0 <= i < |reqs| ==> Plain(reqs[i])
    requires Concat(chunks) == Print(Frames(reqs))
    requires S.Enumerates(w.scan) && Advances(w, 0, |reqs|) && |Named(reqs)| <= 10000
    ensures var e := N.EmptyEngine(hash, 64, 10000, 268435456);
            var decoded := DecodeAll(ReceiveAll(Conn(e, "", "", 0, true), chunks, w).produced);
            decoded.Some? && AllLegal(reqs, decoded.value, 0, w, true)
  {
    hide T.Valid, T.Current, T.ExpirySafe, T.Recent, T.Tracked, T.NoLeftovers, Execute, Named, Advances, S.Enumerates,
      AllLegal, DecodeAll, Plain, Print, Frames, Operations, ReceiveAll;
    var e, ops := N.EmptyEngine(hash, 64, 10000, 268435456), Operations(reqs, 0, w);
    T.EmptyEngineStarts(hash, 64, 10000, 268435456);
    WrittenAreNamed(reqs, 0, w);
    forall i | 0 <= i < |e.shards| ensures |N.At(e, T.WrittenKeys(ops), i)| <= e.shards[i].capacity {
      CardinalitySubset(N.At(e, T.WrittenKeys(ops), i), Named(reqs));
    }
    WireIsPlainMapWhenFitting(e, reqs, 0, w);
    EndToEnd(e, 0, reqs, chunks, w);
  }

  /** The same requests to two servers that differ in the capacity of their shards: what the small one
      finds the large one finds too, whatever the TTLs. */
  lemma {:induction false} LargerServerFindsMore(
    s: N.Engine, l: N.Engine, reqs: seq<Request>, k: Key, turn: nat, w: World)
    requires T.Valid(s) && T.Valid(l) && T.Included(s, l) && s.deadlines == l.deadlines
    ensures var get := Request("GET", [k]);
            var small := Execute(s, reqs + [get], turn, w).1[|reqs|];
            var large := Execute(l, reqs + [get], turn, w).1[|reqs|];
            small == Error("Key not found") || small == large
  {
    hide T.Valid, T.Included;
    var get, ops := Request("GET", [k]), Operations(reqs, turn, w);
    ExecuteSnoc(s, reqs, get, turn, w);
    ExecuteSnoc(l, reqs, get, turn, w);
    ExecuteIsRun(s, reqs, turn, w);
    ExecuteIsRun(l, reqs, turn, w);
    RequestsNeverSweep(reqs, turn, w);
    assert forall i :: 0 <= i < |ops| ==> ops[i] in ops;
    T.LargerShardsAnswerMore(s, l, ops, k, w.clock(turn + |reqs|).now);
  }

  /** The keys that the requests of a list are about. */
  function Mentioned(reqs: seq<Request>): set<Key> {
    set i | 0 <= i < |reqs| && reqs[i].args != [] :: reqs[i].args[0]
  }

  lemma {:induction false} OperationsMention(reqs: seq<Request>, turn: nat, w: World)
    ensures T.NoSweeps(Operations(reqs, turn, w)) && T.KeysOf(Operations(reqs, turn, w)) <= Mentioned(reqs)
    decreases |reqs|
  {
    hide TtlArgument;
    RequestsNeverSweep(reqs, turn, w);
    var ops := Operations(reqs, turn, w);
    assert forall i :: 0 <= i < |ops| ==> ops[i] in ops;
    if reqs == [] {
    } else {
      var rest := Operations(reqs[1..], turn + 1, w);
      OperationsMention(reqs[1..], turn + 1, w);
      forall k | k in Mentioned(reqs[1..]) ensures k in Mentioned(reqs) {
        var i :| 0 <= i < |reqs[1..]| && reqs[1..][i].args != [] && reqs[1..][i].args[0] == k;
        assert reqs[i + 1] == reqs[1..][i];
      }
      if Operation(reqs[0], w.clock(turn)).Some? {
        var op := Operation(reqs[0], w.clock(turn)).value;
        assert op.key == reqs[0].args[0] && op.key in Mentioned(reqs);
        forall k | k in T.KeysOf(ops) ensures k == op.key || k in T.KeysOf(rest) {
          var i :| 0 <= i < |ops| && ops[i].key == k;
          if i > 0 { assert rest[i - 1] == ops[i]; }
        }
      }
    }
  }

  /** LRU retention on the wire: a key that a GET has found is found again, with the same value as long
      as it has not expired, after any requests about fewer other keys than its shard has room for. */
  lemma {:induction false} WireRetention(e: N.Engine, k: Key, reqs: seq<Request>, turn: nat, w: World)
    requires T.Valid(e) && N.Answer(e, k, w.clock(turn).now).Some?
    requires k !in Mentioned(reqs) && |Mentioned(reqs)| < e.shards[N.Home(e, k)].capacity
    ensures var get, n := Request("GET", [k]), |reqs| + 1;
            Execute(e, [get] + reqs + [get], turn, w).1[n] ==
            match N.Answer(e, k, w.clock(turn + n).now)
            case None => Error("Key not found")
            case Some(v) => Ok(v)
  {
    hide N.Answer, N.Apply, T.Valid, Execute, Operations;
    var get, n, at := Request("GET", [k]), |reqs| + 1, w.clock(turn);
    var e1, ops := EngineAfter(e, get, at), Operations(reqs, turn + 1, w);
    ExecuteCons(e, get, reqs, turn, w);
    ExecuteSnoc(e, [get] + reqs, get, turn, w);
    ExecuteIsRun(e1, reqs, turn + 1, w);
    OperationsMention(reqs, turn + 1, w);
    CardinalitySubset(T.KeysOf(ops), Mentioned(reqs));
    T.RetentionAfterHit(e, k, at.now, ops);
  }

  lemma {:induction false} ExecuteCons(e: N.Engine, first: Request, reqs: seq<Request>, turn: nat, w: World)
    ensures Execute(e, [first] + reqs, turn, w).0 ==
            Execute(EngineAfter(e, first, w.clock(turn)), reqs, turn + 1, w).0
  {
    assert ([first] + reqs)[1..] == reqs;
  }

  // ----- Listing the keys -----

  /** Every stored key and value is a word. */
  ghost predicate StoresWords(e: N.Engine) {
    forall i, k :: 0 <= i < |e.shards| && k in e.shards[i].store ==> Word(k) && Word(e.shards[i].store[k].value)
  }

  lemma {:induction false} RequestsArePlain(frames: seq<string>)
    ensures forall r :: r in Requests(frames) ==> Plain(r)
  {
    if frames == [] {
    } else {
      RequestsArePlain(frames[1..]);
      ParsedIsPlain(frames[0]);
    }
  }

  lemma {:induction false} RequestKeepsWords(e: N.Engine, req: Request, at: Readings)
    requires T.Valid(e) && StoresWords(e) && Plain(req)
    ensures T.Valid(EngineAfter(e, req, at)) && StoresWords(EngineAfter(e, req, at))
  {
    hide TtlArgument, Word;
    if Operation(req, at).Some? {
      var op := Operation(req, at).value;
      var e' := EngineAfter(e, req, at);
      T.ApplyValid(e, op);
      forall i, k | 0 <= i < |e'.shards| && k in e'.shards[i].store
        ensures Word(k) && Word(e'.shards[i].store[k].value)
      {
        T.StoreAfter(e, op, i, k);
      }
    }
  }

  /** What came in over the wire is made of words. */
  lemma {:induction false} ExecuteKeepsWords(e: N.Engine, reqs: seq<Request>, turn: nat, w: World)
    requires T.Valid(e) && StoresWords(e) && forall r :: r in reqs ==> Plain(r)
    ensures T.Valid(Execute(e, reqs, turn, w).0) && StoresWords(Execute(e, reqs, turn, w).0)
    decreases |reqs|
  {
    hide EngineAfter, ResponseTo, T.Valid, StoresWords, Plain;
    if reqs == [] {
    } else {
      var at := w.clock(turn);
      RequestKeepsWords(e, reqs[0], at);
      ExecuteKeepsWords(EngineAfter(e, reqs[0], at), reqs[1..], turn + 1, w);
    }
  }

  /** The pairs of a KEYS response. */
  function Listed(e: N.Engine, turn: nat, w: World): seq<(Key, Value)> {
    S.MergedItems(e.shards, w.scan, w.clock(turn).tick)
  }

  lemma {:induction false} ExecuteOne(e: N.Engine, req: Request, turn: nat, w: World)
    ensures Execute(e, [req], turn, w) ==
            (EngineAfter(e, req, w.clock(turn)), [ResponseTo(e, w.scan, req, w.clock(turn))])
  {
    hide EngineAfter, ResponseTo;
    assert [req][1..] == [];
    var e', r := EngineAfter(e, req, w.clock(turn)), ResponseTo(e, w.scan, req, w.clock(turn));
    assert Execute(e', [], turn + 1, w) == (e', []);
    assert [r] + [] == [r];
  }

  lemma {:induction false} SerializeOne(r: Response)
    ensures SerializeAll([r]) == Serialize(r)
  {
    hide Serialize;
    assert [r][1..] == [] && Serialize(r) + "" == Serialize(r);
  }

  /** One more request on a connection with nothing pending. */
  lemma {:induction false} OneRequest(c: Conn, req: Request, w: World)
    requires c.open && c.pending == "" && Plain(req)
    ensures var at := w.clock(c.turn);
            Receive(c, PrintRequest(req) + CRLF, w) ==
            Conn(EngineAfter(c.engine, req, at), "", c.produced + Serialize(ResponseTo(c.engine, w.scan, req, at)),
                 c.turn + 1, true)
  {
    hide EngineAfter, ResponseTo, Serialize, SerializeAll, FirstCrlf, Print, Plain, ParseResult, PrintRequest, Serve,
      Execute;
    var line := PrintRequest(req) + CRLF;
    assert [req][1..] == [] && Frames([]) == [];
    assert Frames([req]) == [PrintRequest(req)];
    FramesReadBack([req]);
    PrintCons(PrintRequest(req), []);
    PrintNone();
    assert [PrintRequest(req)] + [] == [PrintRequest(req)] && line + "" == line && "" + line == line;
    DrainInvertsPrint([PrintRequest(req)], "");
    ServeIsAtOnce(c.(pending := line), w);
    ExecuteOne(c.engine, req, c.turn, w);
    SerializeOne(ResponseTo(c.engine, w.scan, req, w.clock(c.turn)));
  }

  lemma {:induction false} KeysRequest()
    ensures Plain(Request("KEYS", [])) && PrintRequest(Request("KEYS", [])) + CRLF == "KEYS\r\n"
  {
  }

  lemma {:induction false} KeysServed(c: Conn, w: World)
    requires c.open && c.pending == ""
    ensures Receive(c, "KEYS\r\n", w).produced == c.produced + Serialize(Ok(Text(Listed(c.engine, c.turn, w))))
  {
    hide Receive, Serialize, Text, EngineAfter;
    KeysRequest();
    OneRequest(c, Request("KEYS", []), w);
  }

  /** Whatever bytes were received before, the words of a KEYS response are the lines "k:v" of
      exactly the keys that a GET would find, each once; a client that splits the lines at the first
      colon gets the pairs if and only if none of these keys holds a colon; one that knows that no key
      is listed twice can work them out if and only if the lines settle every second reading. */
  lemma {:induction false} KeysAfterAnyBytes(c: Conn, chunks: seq<string>, w: World)
    requires c.open && Quiet(c) && T.Valid(c.engine) && StoresWords(c.engine) && S.Enumerates(w.scan)
    ensures var c' := ReceiveAll(c, chunks, w);
            var items, tick := Listed(c'.engine, c'.turn, w), w.clock(c'.turn).tick;
            && (c'.open && c'.pending == "" ==>
                  Receive(c', "KEYS\r\n", w).produced == c'.produced + Serialize(Ok(Text(items))))
            && Tokens(Text(items)) == ItemWords(items)
            && S.KeysOnce(items)
            && (forall k, v :: (k, v) in items <==> N.Answer(c'.engine, k, tick(k)) == Some(v))
            && ((forall i :: 0 <= i < |items| ==> SplitLine(Tokens(Text(items))[i]) == items[i])
                <==> (forall k, v :: (k, v) in items ==> ':' !in k))
            && ((forall other :: WordItems(other) && S.KeysOnce(other) && Text(other) == Text(items) ==> other == items)
                <==> Settled(items))
  {
    hide T.Valid, S.KeysOnce, Settled, Execute, Text, Tokens, ReceiveAll, Receive, SplitLine, Quiet, Serialize;
    hide S.MergedItems, S.Enumerates, N.Answer, N.Apply;
    var stream := c.pending + Concat(chunks);
    var reqs := Requests(Drain(stream).0);
    ChunkingIndependence(c, chunks, w);
    RequestsArePlain(Drain(stream).0);
    ExecuteKeepsWords(c.engine, reqs, c.turn, w);
    var c' := ReceiveAll(c, chunks, w);
    var items, tick := Listed(c'.engine, c'.turn, w), w.clock(c'.turn).tick;
    T.ListingIsAllAnswers(c'.engine, w.scan, tick);
    ListedAreWords(c'.engine, w.scan, tick);
    ListingReadsBack(items);
    PairsReadBack(items);
    TextDeterminesListing(items);
    if c'.open && c'.pending == "" { KeysServed(c', w); }
    forall i | 0 <= i < |items| ensures (items[i].0, items[i].1) in items { }
  }

  lemma {:induction false} ListedAreWords(e: N.Engine, scan: set<Key> -> seq<Key>, tick: Key -> uint64)
    requires T.Valid(e) && StoresWords(e) && S.Enumerates(scan)
    ensures WordItems(S.MergedItems(e.shards, scan, tick))
  {
    hide T.Valid, S.MergedItems, S.Enumerates, Word;
    var items := S.MergedItems(e.shards, scan, tick);
    T.ListingIsAllAnswers(e, scan, tick);
    forall i | 0 <= i < |items| ensures Word(items[i].0) && Word(items[i].1) {
      assert (items[i].0, items[i].1) in items;
    }
  }
}
