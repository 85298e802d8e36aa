/** The reference for the whole server: one plain map from keys to entries, and what each request
    does to it and may answer.  No shards, no indexes, no eviction. */
module PlainServers {
  import opened Common
  import opened Entries
  import opened Parser
  import opened Serializer
  import opened Listings
  import opened Dispatchers
  import S = ShardStates
  import N = EngineStates
  import T = EngineTheorems

  type PlainMap = map<Key, Entry>

  function Find(m: PlainMap, k: Key, now: uint64): Option<Value> {
    if k in m && !m[k].IsExpired(now) then Some(m[k].value) else None
  }

  /** The map after a request. */
  function After(m: PlainMap, req: Request, at: Readings): PlainMap {
    var n := |req.args|;
    if req.command == "SET" && n >= 2 then
      m[req.args[0] := Entry(req.args[1], at.now, 0)]
    else if req.command == "SETEX" && n >= 3 && TtlArgument(req.args[1]).Returned? then
      m[req.args[0] := Entry(req.args[2], at.now, DeadlineAfter(at.now, TtlArgument(req.args[1]).value))]
    else if req.command == "DEL" && n >= 1 then
      m - {req.args[0]}
    else m
  }

  /** The responses allowed in a state of the map.  A complete server finds all there is; any other
      one may fail to find a key, but not make one up. */
  ghost predicate Legal(m: PlainMap, req: Request, at: Readings, r: Response, complete: bool) {
    var n := |req.args|;
    if req.command == "SET" then
      r == if n < 2 then Error("SET requires key and value") else Ok("")
    else if req.command == "GET" then
      if n < 1 then r == Error("Get requires key")
      else
        match Find(m, req.args[0], at.now)
        case Some(v) => r == Ok(v) || (!complete && r == Error("Key not found"))
        case None => r == Error("Key not found")
    else if req.command == "DEL" then
      r == if n < 1 then Error("DEL requires key") else Ok("")
    else if req.command == "SETEX" then
      r == if n < 3 then Error("SETEX requires key, ttl_ms and value")
           else if TtlArgument(req.args[1]).Thrown? then Error(TtlArgument(req.args[1]).what)
           else Ok("")
    else if req.command == "KEYS" then
      if n > 0 then r == Error("KEYS takes no arguments")
      else exists items :: r == Ok(Text(items)) && Lists(m, items, at, complete)
    else if req.command == "PING" then
      r == if n > 0 then Error("PING takes no arguments") else Ok("PONG")
    else
      r == if req.command == "" then Error("Empty Command") else Error("Unknown command")
  }

  /** Every key at most once, with its value; a complete listing has all keys. */
  ghost predicate Lists(m: PlainMap, items: seq<(Key, Value)>, at: Readings, complete: bool) {
    && S.KeysOnce(items)
    && (forall k, v :: (k, v) in items ==> Find(m, k, at.tick(k)) == Some(v))
    && (complete ==> forall k :: Find(m, k, at.tick(k)).Some? ==> (k, Find(m, k, at.tick(k)).value) in items)
  }

  /** The engine finds nothing but what the map has. */
  ghost predicate Within(e: N.Engine, m: PlainMap) {
    forall k, now: uint64 :: N.Answer(e, k, now).Some? ==> N.Answer(e, k, now) == Find(m, k, now)
  }

  /** From a point in time on the engine finds all that the map has. */
  ghost predicate Complete(e: N.Engine, m: PlainMap, since: uint64) {
    forall k, now: uint64 :: since <= now ==> N.Answer(e, k, now) == Find(m, k, now)
  }

  ghost predicate TicksAfter(at: Readings, since: uint64) {
    since <= at.now && forall k :: since <= TickOf(at, k)
  }

  function TickOf(at: Readings, k: Key): uint64 {
    at.tick(k)
  }

  lemma {:induction false} ListingIsLegal(
    e: N.Engine, scan: set<Key> -> seq<Key>, m: PlainMap, at: Readings, complete: bool)
    requires T.Valid(e) && S.Enumerates(scan) && Within(e, m)
    requires complete ==> exists since: uint64 :: Complete(e, m, since) && TicksAfter(at, since)
    ensures Lists(m, S.MergedItems(e.shards, scan, at.tick), at, complete)
  {
    hide T.Valid, S.Enumerates, S.MergedItems, N.Answer;
    T.ListingIsAllAnswers(e, scan, at.tick);
    if complete {
      var since: uint64 :| Complete(e, m, since) && TicksAfter(at, since);
      forall k | Find(m, k, at.tick(k)).Some? ensures N.Answer(e, k, at.tick(k)) == Find(m, k, at.tick(k)) {
        assert since <= TickOf(at, k);
      }
    }
  }

  /** What the dispatcher answers is allowed. */
  lemma {:induction false} ResponseIsLegal(
    e: N.Engine, scan: set<Key> -> seq<Key>, m: PlainMap, req: Request, at: Readings, complete: bool)
    requires T.Valid(e) && S.Enumerates(scan) && Within(e, m)
    requires complete ==> exists since: uint64 :: Complete(e, m, since) && TicksAfter(at, since)
    ensures Legal(m, req, at, ResponseTo(e, scan, req, at), complete)
  {
    hide T.Valid, S.Enumerates, S.MergedItems, N.Answer, TtlArgument, Lists, Text;
    ListingIsLegal(e, scan, m, at, complete);
    if complete {
      var since: uint64 :| Complete(e, m, since) && TicksAfter(at, since);
    }
  }

  /** The entry of a key. */
  function Lookup(m: PlainMap, k: Key): Option<Entry> {
    if k in m then Some(m[k]) else None
  }

  /** The engine operation of a request does to the last write of a key what the request does to the
      map. */
  lemma {:induction false} OperationIsAfter(m: PlainMap, ops: seq<N.Op>, req: Request, at: Readings, k: Key)
    requires Lookup(m, k) == T.LastWrite(ops, k)
    ensures Lookup(After(m, req, at), k) ==
            T.LastWrite(match Operation(req, at) case None => ops case Some(op) => ops + [op], k)
  {
    hide TtlArgument;
    if Operation(req, at).Some? {
      var op := Operation(req, at).value;
      assert (ops + [op])[..|ops|] == ops && (ops + [op])[|ops|] == op;
    }
  }

  /** A request that is rejected, for whatever reason, leaves the engine exactly as it was, recency and
      byte counter included; so do listings and health checks. */
  lemma {:induction false} RejectedChangesNothing(
    e: N.Engine, scan: set<Key> -> seq<Key>, req: Request, at: Readings)
    requires req.command == "KEYS" || req.command == "PING" ||
             (ResponseTo(e, scan, req, at).Error? && ResponseTo(e, scan, req, at) != Error("Key not found"))
    ensures EngineAfter(e, req, at) == e
  {
    hide TtlArgument, N.Apply, S.MergedItems, Text, N.Answer;
  }

  /** The keys that some request of a list writes. */
  function Named(reqs: seq<Request>): set<Key> {
    set i | 0 <= i < |reqs| && (reqs[i].command == "SET" || reqs[i].command == "SETEX") && reqs[i].args != [] ::
      reqs[i].args[0]
  }
}
