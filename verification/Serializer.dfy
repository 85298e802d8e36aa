/** The response wire format (src/protocol/serializer.h, src/protocol/response.h) and a decoder for
    it, which the repository does not have. */
module Serializer {
  import opened Common
  import opened Framing

  datatype Response = Ok(message: string) | Error(message: string)

  function Digit(d: nat): char
    requires d < 10
  {
    "0123456789"[d]
  }

  predicate IsDigit(c: char) {
    '0' <= c <= '9'
  }

  /** The decimal form of a length. */
  function Decimal(n: nat): (s: string)
    ensures s != "" && forall i :: 0 <= i < |s| ==> IsDigit(s[i])
  {
    if n < 10 then [Digit(n)] else Decimal(n / 10) + [Digit(n % 10)]
  }

  function Serialize(r: Response): string {
    if r.Error? then "-ERR" + r.message + CRLF
    else if r.message == "" then "+OK" + CRLF
    else SerializeBulkString(r.message)
  }

  function SerializeBulkString(value: string): string {
    "$" + Decimal(|value|) + CRLF + value + CRLF
  }

  function SerializeAll(rs: seq<Response>): string {
    if rs == [] then "" else Serialize(rs[0]) + SerializeAll(rs[1..])
  }

  // ----- Decoding -----

  /** The value of a decimal numeral; the last character is the least significant digit. */
  function Number(s: string): nat {
    if s == "" || !IsDigit(s[|s| - 1]) then 0
    else 10 * Number(s[..|s| - 1]) + (s[|s| - 1] as int - '0' as int)
  }

  lemma {:induction false} NumberOfDecimal(n: nat)
    ensures Number(Decimal(n)) == n
  {
    var s := Decimal(n);
    if n < 10 {
      assert s[..0] == "" && Number("") == 0;
      DigitValue(n);
    } else {
      NumberOfDecimal(n / 10);
      assert s[..|s| - 1] == Decimal(n / 10);
      DigitValue(n % 10);
    }
  }

  lemma {:induction false} DigitValue(d: nat)
    requires d < 10
    ensures Digit(d) as int - '0' as int == d
  {
  }

  /** A numeral without superfluous zeros. */
  predicate Numeral(s: string) {
    s != "" && (forall i :: 0 <= i < |s| ==> IsDigit(s[i])) && (s[0] == '0' ==> |s| == 1)
  }

  lemma {:induction false} DecimalIsNumeral(n: nat)
    ensures Numeral(Decimal(n)) && (n > 0 ==> Decimal(n)[0] != '0')
  {
    if n < 10 {
      DigitValue(n);
    } else {
      DecimalIsNumeral(n / 10);
      assert Decimal(n)[0] == Decimal(n / 10)[0];
    }
  }

  lemma {:induction false} NumeralIsDecimal(s: string)
    requires Numeral(s)
    ensures s == Decimal(Number(s))
  {
    var n := |s| - 1;
    var d := s[n] as int - '0' as int;
    DigitValue(d);
    if n == 0 {
      assert s[..0] == "";
      assert s == [s[0]];
    } else {
      NumeralIsDecimal(s[..n]);
      DecimalOfZero(s[..n]);
      assert Number(s) == 10 * Number(s[..n]) + d;
      assert s == s[..n] + [s[n]];
    }
  }

  lemma {:induction false} DecimalOfZero(s: string)
    requires s == Decimal(Number(s)) && s[0] != '0'
    ensures Number(s) > 0
  {
  }

  /** The decimal form is the only numeral of its number. */
  lemma {:induction false} DecimalIsTheNumeral(n: nat, s: string)
    ensures s == Decimal(n) <==> Numeral(s) && Number(s) == n
  {
    DecimalIsNumeral(n);
    NumberOfDecimal(n);
    if Numeral(s) { NumeralIsDecimal(s); }
  }

  /** The bytes of a response; `digits` is the length of the payload as anybody would write it. */
  lemma {:induction false} ResponseBytes(m: string, digits: string)
    requires Numeral(digits) && Number(digits) == |m|
    ensures Serialize(Error(m)) == "-ERR" + m + "\r\n"
    ensures Serialize(Ok(m)) == if m == "" then "+OK\r\n" else "$" + digits + "\r\n" + m + "\r\n"
  {
    DecimalIsTheNumeral(|m|, digits);
  }

  /** The first response of a stream, and what follows it. */
  function Decode(s: string): (r: Option<(Response, string)>)
    ensures r.Some? ==> |r.value.1| < |s|
  {
    match Next(s)
    case None => None
    case Some((line, rest)) => DecodeLine(line, rest)
  }

  function DecodeLine(line: string, rest: string): (r: Option<(Response, string)>)
    ensures r.Some? ==> |r.value.1| <= |rest|
  {
    if line == "+OK" then Some((Ok(""), rest))
    else if "-ERR" <= line then Some((Error(line[4..]), rest))
    else if "$" <= line then DecodeBulk(rest, Number(line[1..]))
    else None
  }

  function DecodeBulk(s: string, n: nat): (r: Option<(Response, string)>)
    ensures r.Some? ==> |r.value.1| <= |s|
  {
    if n + 2 <= |s| && s[n..n + 2] == CRLF then Some((Ok(s[..n]), s[n + 2..])) else None
  }

  function DecodeAll(s: string): Option<seq<Response>>
    decreases |s|
  {
    if s == "" then Some([])
    else
      match Decode(s)
      case None => None
      case Some((r, rest)) =>
        match DecodeAll(rest)
        case None => None
        case Some(rs) => Some([r] + rs)
  }

  /** The message of an error must not hold a CR LF; payloads may hold anything. */
  predicate Sendable(r: Response) {
    r.Error? ==> Flat(r.message)
  }

  lemma {:induction false} FlatPrefix(a: string, m: string)
    requires Flat(m) && forall i :: 0 <= i < |a| ==> a[i] != '\r'
    ensures Flat(a + m)
  {
  }

  lemma {:induction false} DecodeFramed(line: string, rest: string)
    requires Flat(line)
    ensures Decode(line + CRLF + rest) == DecodeLine(line, rest)
  {
    hide FirstCrlf, DecodeLine;
    var s := line + CRLF + rest;
    FirstCrlfOfFrame(line, rest);
    assert s[..|line|] == line && s[|line| + 2..] == rest;
  }

  lemma {:induction false} DecodeErrorLine(m: string, rest: string)
    requires Flat(m)
    ensures Decode("-ERR" + m + CRLF + rest) == Some((Error(m), rest))
  {
    var line := "-ERR" + m;
    FlatPrefix("-ERR", m);
    DecodeFramed(line, rest);
    assert line[0] == '-' && line[..4] == "-ERR" && line[4..] == m;
  }

  lemma {:induction false} DecodeError(m: string, rest: string)
    ensures match Next(m)
            case None => Decode(Serialize(Error(m)) + rest) == Some((Error(m), rest))
            case Some((m', more)) => Decode(Serialize(Error(m)) + rest) == Some((Error(m'), more + CRLF + rest))
  {
    hide Next, Decode;
    NextSplits(m);
    match Next(m)
    case None => DecodeErrorLine(m, rest);
    case Some((m', more)) =>
      DecodeErrorLine(m', more + CRLF + rest);
      assert "-ERR" + m' + CRLF + (more + CRLF + rest) == "-ERR" + (m' + CRLF + more) + CRLF + rest;
  }

  lemma {:induction false} DecodeOk(m: string, rest: string)
    ensures Decode(Serialize(Ok(m)) + rest) == Some((Ok(m), rest))
  {
    hide Decode, Decimal, Number;
    if m == "" {
      DecodeFramed("+OK", rest);
    } else {
      var d, tail := Decimal(|m|), m + CRLF + rest;
      var line := "$" + d;
      DecodeFramed(line, tail);
      assert Serialize(Ok(m)) + rest == line + CRLF + tail;
      assert line[0] == '$' && line[1..] == d;
      NumberOfDecimal(|m|);
      DecodeBulkOf(m, rest);
    }
  }

  lemma {:induction false} DecodeBulkOf(m: string, rest: string)
    ensures DecodeBulk(m + CRLF + rest, |m|) == Some((Ok(m), rest))
  {
    var s, n := m + CRLF + rest, |m|;
    assert s[..n] == m && s[n..n + 2] == CRLF && s[n + 2..] == rest;
  }

  /** A response is read back, whatever follows it, if and only if it is sendable. */
  lemma {:induction false} DecodeInvertsSerialize(r: Response, rest: string)
    ensures Decode(Serialize(r) + rest) == Some((r, rest)) <==> Sendable(r)
  {
    match r
    case Ok(m) => DecodeOk(m, rest);
    case Error(m) =>
      DecodeError(m, rest);
      NextSplits(m);
      NextShortens(m);
  }

  lemma {:induction false} NextShortens(m: string)
    ensures Next(m).Some? <==> !Flat(m)
    ensures Next(m).Some? ==> |Next(m).value.0| < |m|
  {
    FirstCrlfIsFirst(m);
  }

  /** A stream of responses is read back, response by response, if and only if all are sendable. */
  lemma {:induction false} StreamDecodes(rs: seq<Response>)
    ensures DecodeAll(SerializeAll(rs)) == Some(rs) <==> forall r :: r in rs ==> Sendable(r)
  {
    if rs == [] {
    } else {
      hide Decode, Serialize, Sendable;
      var r, rest := rs[0], SerializeAll(rs[1..]);
      var s := SerializeAll(rs);
      assert s == Serialize(r) + rest;
      SerializeNonempty(r);
      DecodeInvertsSerialize(r, rest);
      StreamDecodes(rs[1..]);
      assert rs == [r] + rs[1..];
      assert r in rs && forall x :: x in rs <==> x == r || x in rs[1..];
      if !Sendable(r) {
        MisreadFirst(r, rest);
      }
    }
  }

  lemma {:induction false} SerializeNonempty(r: Response)
    ensures Serialize(r) != ""
  {
  }

  lemma {:induction false} MisreadFirst(r: Response, rest: string)
    requires !Sendable(r)
    ensures Decode(Serialize(r) + rest).Some? && Decode(Serialize(r) + rest).value.0 != r
  {
    DecodeError(r.message, rest);
    NextShortens(r.message);
  }

  /** Two sequences of sendable responses never look the same on the wire. */
  lemma {:induction false} StreamsAreUnambiguous(a: seq<Response>, b: seq<Response>)
    requires forall r :: r in a || r in b ==> Sendable(r)
    requires SerializeAll(a) == SerializeAll(b)
    ensures a == b
  {
    StreamDecodes(a);
    StreamDecodes(b);
  }

  /** Without that condition no decoder can exist: one response and two are the same bytes. */
  lemma {:induction false} UnsendableIsAmbiguous(a: string, b: string)
    ensures Serialize(Error(a + CRLF + "-ERR" + b)) == Serialize(Error(a)) + Serialize(Error(b))
    ensures !Sendable(Error(a + CRLF + "-ERR" + b))
  {
    var m := a + CRLF + "-ERR" + b;
    assert m[|a|] == '\r' && m[|a| + 1] == '\n';
    assert "-ERR" + m + CRLF == ("-ERR" + a + CRLF) + ("-ERR" + b + CRLF);
  }
}
