/** Interpretation of requests (src/server/dispatcher.h). */
module Dispatchers {
  import opened Common
  import opened Parser
  import opened Framing
  import opened Serializer
  import opened Listings
  import opened KvEngines
  import S = ShardStates
  import N = EngineStates

  /** The clock readings a command can make: one or two for a key, one for each key in a listing. */
  datatype Readings = Readings(now: uint64, later: uint64, tick: Key -> uint64)

  // ----- std::stoull -----

  function DigitRun(s: string): (n: nat)
    ensures n <= |s|
  {
    if s == "" || !IsDigit(s[0]) then 0 else 1 + DigitRun(s[1..])
  }

  /** Leading white space, an optional sign and the longest run of digits; what follows is ignored.
      None stands for the exceptions: no digits, or a value that does not fit 64 bits. */
  function Stoull(s: string): Option<uint64> {
    var t := SkipSpaces(s);
    var signed := t != "" && (t[0] == '+' || t[0] == '-');
    var digits := if signed then t[1..] else t;
    var n := DigitRun(digits);
    var value := Number(digits[..n]);
    if n == 0 || value >= WORD then None
    else if signed && t[0] == '-' then Some((WORD - value) % WORD)
    else Some(value)
  }

  // ----- What each command does and answers -----

  /** The TTL argument of SETEX, or the error message. */
  function TtlArgument(s: string): Outcome<uint64> {
    if s != "" && s[0] == '-' then Thrown("SETEX ttl_ms must be a positive integer")
    else
      match Stoull(s)
      case None => Thrown("SETEX ttl_ms must be a valid integer")
      case Some(ttl) => if ttl == 0 then Thrown("SETEX ttl_ms must be a positive integer") else Returned(ttl)
  }

  function Answered(answer: Option<Value>): Response {
    match answer
    case Some(value) => Ok(value)
    case None => Error("Key not found")
  }

  /** The engine operation a request stands for, if it is well-formed and has one. */
  function Operation(req: Request, at: Readings): Option<N.Op> {
    var n := |req.args|;
    if req.command == "SET" && n >= 2 then Some(N.Set(req.args[0], req.args[1], at.now))
    else if req.command == "GET" && n >= 1 then Some(N.Get(req.args[0], at.now))
    else if req.command == "DEL" && n >= 1 then Some(N.Delete(req.args[0]))
    else if req.command == "SETEX" && n >= 3 && TtlArgument(req.args[1]).Returned? then
      Some(N.SetWithTTL(req.args[0], req.args[2], TtlArgument(req.args[1]).value, at.now, at.later))
    else None
  }

  function EngineAfter(e: N.Engine, req: Request, at: Readings): N.Engine {
    match Operation(req, at)
    case Some(op) => N.Apply(e, op)
    case None => e
  }

  function ResponseTo(e: N.Engine, scan: set<Key> -> seq<Key>, req: Request, at: Readings): Response {
    var n := |req.args|;
    if req.command == "" then Error("Empty Command")
    else if req.command == "SET" then
      if n < 2 then Error("SET requires key and value") else Ok("")
    else if req.command == "GET" then
      if n < 1 then Error("Get requires key") else Answered(N.Answer(e, req.args[0], at.now))
    else if req.command == "DEL" then
      if n < 1 then Error("DEL requires key") else Ok("")
    else if req.command == "SETEX" then
      if n < 3 then Error("SETEX requires key, ttl_ms and value")
      else
        match TtlArgument(req.args[1])
        case Thrown(what) => Error(what)
        case Returned(_) => Ok("")
    else if req.command == "KEYS" then
      if n > 0 then Error("KEYS takes no arguments")
      else Ok(Text(S.MergedItems(e.shards, scan, at.tick)))
    else if req.command == "PING" then
      if n > 0 then Error("PING takes no arguments") else Ok("PONG")
    else Error("Unknown command")
  }

  lemma {:induction false} UsageMessagesAreFlat()
    ensures Flat("Empty Command") && Flat("Unknown command") && Flat("Key not found")
    ensures Flat("SET requires key and value") && Flat("Get requires key") && Flat("DEL requires key")
    ensures Flat("KEYS takes no arguments") && Flat("PING takes no arguments")
  {
  }

  lemma {:induction false} TtlMessagesAreFlat()
    ensures Flat("SETEX requires key, ttl_ms and value")
    ensures Flat("SETEX ttl_ms must be a positive integer")
    ensures Flat("SETEX ttl_ms must be a valid integer")
  {
  }

  /** No error message the dispatcher makes can break the wire format. */
  lemma {:induction false} ResponsesAreSendable(e: N.Engine, scan: set<Key> -> seq<Key>, req: Request, at: Readings)
    ensures Sendable(ResponseTo(e, scan, req, at))
  {
    hide Flat, N.Answer, S.MergedItems, Text, Stoull;
    UsageMessagesAreFlat();
    TtlMessagesAreFlat();
  }

  class Dispatcher {
    const engine: KVEngine

    constructor (engine: KVEngine)
      ensures this.engine == engine
    {
      this.engine := engine;
    }

    method Dispatch(req: Request, at: Readings) returns (response: Response)
      requires engine.Valid() && S.Enumerates(engine.shardManager.scan)
      modifies engine.Repr
      ensures engine.Valid() && fresh(engine.Repr - old(engine.Repr))
      ensures engine.state == EngineAfter(old(engine.state), req, at)
      ensures response == ResponseTo(old(engine.state), engine.shardManager.scan, req, at)
    {
      hide KVEngine.Valid, N.Apply;
      if req.command == "" {
        return Error("Empty Command");
      }
      if req.command == "SET" {
        response := HandleSet(req, at);
        return;
      }
      if req.command == "GET" {
        response := HandleGet(req, at);
        return;
      }
      if req.command == "DEL" {
        response := HandleDelete(req, at);
        return;
      }
      if req.command == "SETEX" {
        response := HandleSetEx(req, at);
        return;
      }
      if req.command == "KEYS" {
        response := HandleKeys(req, at);
        return;
      }
      if req.command == "PING" {
        return HandlePing(req);
      }
      return Error("Unknown command");
    }

    method HandleSet(req: Request, at: Readings) returns (response: Response)
      requires engine.Valid() && req.command == "SET"
      modifies engine.Repr
      ensures engine.Valid() && fresh(engine.Repr - old(engine.Repr))
      ensures engine.state == EngineAfter(old(engine.state), req, at)
      ensures response == if |req.args| < 2 then Error("SET requires key and value") else Ok("")
    {
      hide KVEngine.Valid, N.Apply;
      if |req.args| < 2 {
        return Error("SET requires key and value");
      }
      engine.Set(req.args[0], req.args[1], at.now);
      return Ok("");
    }

    method HandleGet(req: Request, at: Readings) returns (response: Response)
      requires engine.Valid() && req.command == "GET"
      modifies engine.Repr
      ensures engine.Valid() && fresh(engine.Repr - old(engine.Repr))
      ensures engine.state == EngineAfter(old(engine.state), req, at)
      ensures response == if |req.args| < 1 then Error("Get requires key")
                          else Answered(N.Answer(old(engine.state), req.args[0], at.now))
    {
      hide KVEngine.Valid, N.Apply, N.Answer;
      if |req.args| < 1 {
        return Error("Get requires key");
      }
      var value := engine.Get(req.args[0], at.now);
      if value.None? {
        return Error("Key not found");
      }
      return Ok(value.value);
    }

    method HandleDelete(req: Request, at: Readings) returns (response: Response)
      requires engine.Valid() && req.command == "DEL"
      modifies engine.Repr
      ensures engine.Valid() && fresh(engine.Repr - old(engine.Repr))
      ensures engine.state == EngineAfter(old(engine.state), req, at)
      ensures response == if |req.args| < 1 then Error("DEL requires key") else Ok("")
    {
      hide KVEngine.Valid, N.Apply;
      if |req.args| < 1 {
        return Error("DEL requires key");
      }
      engine.Delete(req.args[0]);
      return Ok("");
    }

    method HandleSetEx(req: Request, at: Readings) returns (response: Response)
      requires engine.Valid() && req.command == "SETEX"
      modifies engine.Repr
      ensures engine.Valid() && fresh(engine.Repr - old(engine.Repr))
      ensures engine.state == EngineAfter(old(engine.state), req, at)
      ensures response == if |req.args| < 3 then Error("SETEX requires key, ttl_ms and value")
                          else if TtlArgument(req.args[1]).Thrown? then Error(TtlArgument(req.args[1]).what)
                          else Ok("")
    {
      hide KVEngine.Valid, N.Apply, Stoull;
      if |req.args| < 3 {
        return Error("SETEX requires key, ttl_ms and value");
      }
      var ttlStr := req.args[1];
      if ttlStr != "" && ttlStr[0] == '-' {
        return Error("SETEX ttl_ms must be a positive integer");
      }
      var parsed := Stoull(ttlStr);
      if parsed.None? {
        return Error("SETEX ttl_ms must be a valid integer");
      }
      if parsed.value == 0 {
        return Error("SETEX ttl_ms must be a positive integer");
      }
      engine.SetWithTTL(req.args[0], req.args[2], parsed.value, at.now, at.later);
      return Ok("");
    }

    method HandleKeys(req: Request, at: Readings) returns (response: Response)
      requires engine.Valid() && S.Enumerates(engine.shardManager.scan) && req.command == "KEYS"
      ensures EngineAfter(engine.state, req, at) == engine.state
      ensures response ==
              if |req.args| > 0 then Error("KEYS takes no arguments")
              else Ok(Text(S.MergedItems(engine.state.shards, engine.shardManager.scan, at.tick)))
    {
      hide KVEngine.Valid, Lines, S.MergedItems;
      if |req.args| > 0 {
        return Error("KEYS takes no arguments");
      }
      var pairs := engine.GetAllKeys(at.tick);
      var result := "";
      NoLines();
      for i := 0 to |pairs|
        invariant result == Lines(pairs[..i])
      {
        LinesSnoc(pairs, i);
        result := result + (Line(pairs[i]) + "\n");
      }
      assert pairs[..|pairs|] == pairs;
      if result != "" && result[|result| - 1] == '\n' {
        result := result[..|result| - 1];
      }
      return Ok(result);
    }

    function HandlePing(req: Request): Response {
      if |req.args| > 0 then Error("PING takes no arguments") else Ok("PONG")
    }
  }

  // ----- The TTL argument -----

  lemma {:induction false} DigitRunOf(s: string)
    requires forall i :: 0 <= i < |s| ==> IsDigit(s[i])
    ensures DigitRun(s) == |s|
  {
    if s == "" {
    } else {
      DigitRunOf(s[1..]);
    }
  }

  /** Every positive 64-bit number is read back from its decimal form; everything else is rejected. */
  lemma {:induction false} TtlOfDecimal(n: nat)
    ensures TtlArgument(Decimal(n)) ==
            if n == 0 then Thrown("SETEX ttl_ms must be a positive integer")
            else if n >= WORD then Thrown("SETEX ttl_ms must be a valid integer")
            else Returned(n)
  {
    var s := Decimal(n);
    assert IsDigit(s[0]) && !IsSpace(s[0]);
    DigitRunOf(s);
    assert s[..|s|] == s;
    NumberOfDecimal(n);
  }

  /** After white space and a sign, digits are read up to the first other character; only a minus sign
      that is the very first character is rejected as such, behind white space it negates modulo
      2^64. */
  lemma {:induction false} TtlOfDigits(pad: string, sign: string, digits: string, rest: string)
    requires Blank(pad) && (sign == "" || sign == "+" || sign == "-")
    requires digits != "" && forall i :: 0 <= i < |digits| ==> IsDigit(digits[i])
    requires rest == "" || !IsDigit(rest[0])
    ensures var n := Number(digits);
            var ttl := if sign == "-" then (0x1_0000_0000_0000_0000 - n) % 0x1_0000_0000_0000_0000 else n;
            TtlArgument(pad + sign + digits + rest) ==
            if pad == "" && sign == "-" then Thrown("SETEX ttl_ms must be a positive integer")
            else if n >= 0x1_0000_0000_0000_0000 then Thrown("SETEX ttl_ms must be a valid integer")
            else if ttl == 0 then Thrown("SETEX ttl_ms must be a positive integer")
            else Returned(ttl)
  {
    hide Stoull, Number, DigitRun;
    assert digits[0] == (digits + rest)[0];
    assert (pad + sign + digits + rest)[0] == if pad != "" then pad[0] else if sign != "" then sign[0] else digits[0];
    StoullOf(pad, sign, digits, rest);
  }

  lemma {:induction false} StoullOf(pad: string, sign: string, digits: string, rest: string)
    requires Blank(pad) && (sign == "" || sign == "+" || sign == "-")
    requires digits != "" && forall i :: 0 <= i < |digits| ==> IsDigit(digits[i])
    requires rest == "" || !IsDigit(rest[0])
    ensures Stoull(pad + sign + digits + rest) ==
            if Number(digits) >= WORD then None
            else Some(if sign == "-" then (WORD - Number(digits)) % WORD else Number(digits))
  {
    hide Number, DigitRun, SkipSpaces;
    var t := digits + rest;
    var s := sign + t;
    assert IsDigit(t[0]) && s[0] == if sign == "" then t[0] else sign[0];
    assert pad + sign + digits + rest == pad + s;
    SkipBlank(pad, s);
    assert sign == "" ==> s == t;
    assert sign != "" ==> s[1..] == t;
    DigitRunStops(digits, rest);
    assert t[..|digits|] == digits;
  }

  lemma {:induction false} DigitRunStops(digits: string, rest: string)
    requires forall i :: 0 <= i < |digits| ==> IsDigit(digits[i])
    requires rest == "" || !IsDigit(rest[0])
    ensures DigitRun(digits + rest) == |digits|
  {
    if digits == "" {
      assert digits + rest == rest;
    } else {
      assert (digits + rest)[1..] == digits[1..] + rest;
      DigitRunStops(digits[1..], rest);
    }
  }

  /** Leading zeros do not change the number. */
  lemma {:induction false} LeadingZero(digits: string)
    requires forall i :: 0 <= i < |digits| ==> IsDigit(digits[i])
    ensures Number("0" + digits) == Number(digits)
  {
    var n := |digits| - 1;
    var s := "0" + digits;
    if digits == "" {
      assert s[..0] == "" && s[0] == '0';
    } else {
      assert s[..n + 1] == "0" + digits[..n] && s[n + 1] == digits[n];
      LeadingZero(digits[..n]);
    }
  }

  /** Everything else is rejected: a minus sign first of all, what has no digit behind white space and
      sign as no number. */
  lemma {:induction false} TtlOfOthers(pad: string, s: string)
    requires Blank(pad) && (s == "" || !IsSpace(s[0]))
    ensures pad == "" && s != "" && s[0] == '-' ==>
              TtlArgument(pad + s) == Thrown("SETEX ttl_ms must be a positive integer")
    ensures var unsigned := if s != "" && (s[0] == '+' || s[0] == '-') then s[1..] else s;
            (unsigned == "" || !('0' <= unsigned[0] <= '9')) && (pad != "" || s == "" || s[0] != '-') ==>
              TtlArgument(pad + s) == Thrown("SETEX ttl_ms must be a valid integer")
  {
    SkipBlank(pad, s);
    assert pad == "" ==> pad + s == s;
    assert pad != "" ==> (pad + s)[0] == pad[0] && IsSpace(pad[0]);
  }
}
