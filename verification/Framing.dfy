/** Splitting a byte stream into frames that end in CR LF (src/protocol/framing.h). */
module Framing {
  import opened Common
  import opened Buffers

  const CRLF: string := "\r\n"

  /** The position of the first CR LF, or the length when there is none. */
  function FirstCrlf(s: string): (p: nat)
    ensures p <= |s|
    ensures p < |s| ==> p + 2 <= |s| && s[p] == '\r' && s[p + 1] == '\n'
  {
    if |s| < 2 then |s|
    else if s[0] == '\r' && s[1] == '\n' then 0
    else 1 + FirstCrlf(s[1..])
  }

  predicate Flat(s: string) {
    forall i :: 0 <= i < |s| - 1 ==> !(s[i] == '\r' && s[i + 1] == '\n')
  }

  lemma {:induction false} FirstCrlfIsFirst(s: string)
    ensures Flat(s) <==> FirstCrlf(s) == |s|
    ensures forall i :: 0 <= i < FirstCrlf(s) && i + 1 < |s| ==> !(s[i] == '\r' && s[i + 1] == '\n')
  {
    if |s| < 2 || (s[0] == '\r' && s[1] == '\n') {
    } else {
      var t := s[1..];
      FirstCrlfIsFirst(t);
      forall i | 0 <= i < FirstCrlf(s) && i + 1 < |s| ensures !(s[i] == '\r' && s[i + 1] == '\n') {
        if i > 0 { assert t[i - 1] == s[i] && t[i] == s[i + 1]; }
      }
      if Flat(s) {
        forall i | 0 <= i < |t| - 1 ensures !(t[i] == '\r' && t[i + 1] == '\n') {
          assert t[i] == s[i + 1] && t[i + 1] == s[i + 2];
        }
      }
    }
  }

  /** The first CR LF is determined by what comes before it. */
  lemma {:induction false} FirstCrlfOfFrame(frame: string, rest: string)
    requires Flat(frame)
    ensures FirstCrlf(frame + CRLF + rest) == |frame|
  {
    var s := frame + CRLF + rest;
    if frame == [] {
    } else {
      var t := frame[1..];
      assert s[1..] == t + CRLF + rest;
      assert s[0] == frame[0] && s[1] == if |frame| > 1 then frame[1] else '\r';
      forall i | 0 <= i < |t| - 1 ensures !(t[i] == '\r' && t[i + 1] == '\n') {
        assert t[i] == frame[i + 1] && t[i + 1] == frame[i + 2];
      }
      FirstCrlfOfFrame(t, rest);
    }
  }

  /** One frame and what follows it, or nothing when more data is needed. */
  function Next(s: string): (r: Option<(string, string)>)
    ensures r.Some? ==> |r.value.1| < |s|
  {
    var p := FirstCrlf(s);
    if p == |s| then None else Some((s[..p], s[p + 2..]))
  }

  method NextFrame(buffer: Buffer) returns (ok: bool, frame: string)
    requires buffer.Valid()
    modifies buffer
    ensures buffer.Valid()
    ensures ok <==> Next(old(buffer.Readable())).Some?
    ensures if ok then (frame, buffer.Readable()) == Next(old(buffer.Readable())).value
            else buffer.Readable() == old(buffer.Readable())
  {
    frame := "";
    var data := buffer.Readable();
    var pos := FirstCrlf(data);
    if pos == |data| {
      return false, frame;
    }
    frame := data[..pos];
    var _ := buffer.Consume(pos + 2);
    return true, frame;
  }

  // ----- Whole streams -----

  /** All complete frames of a stream, and the unfinished rest. */
  function Drain(s: string): (r: (seq<string>, string))
    decreases |s|
  {
    match Next(s)
    case None => ([], s)
    case Some((frame, rest)) => var d := Drain(rest); ([frame] + d.0, d.1)
  }

  function Print(frames: seq<string>): string {
    if frames == [] then "" else frames[0] + CRLF + Print(frames[1..])
  }

  lemma {:induction false} NextSplits(s: string)
    ensures match Next(s)
            case None => Flat(s)
            case Some((frame, rest)) => Flat(frame) && s == frame + CRLF + rest
  {
    hide FirstCrlf;
    FirstCrlfIsFirst(s);
  }

  /** No byte is lost or made up: frames and rest spell the stream; the rest holds no CR LF,
      nor does any frame. */
  lemma {:induction false} DrainConserves(s: string)
    ensures Print(Drain(s).0) + Drain(s).1 == s
    ensures Flat(Drain(s).1) && forall f :: f in Drain(s).0 ==> Flat(f)
    decreases |s|
  {
    hide Next, Print, Flat;
    NextSplits(s);
    if Next(s).Some? {
      var (frame, rest) := Next(s).value;
      var d := Drain(rest);
      DrainConserves(rest);
      PrintCons(frame, d.0);
      assert frame + CRLF + Print(d.0) + d.1 == frame + CRLF + (Print(d.0) + d.1);
    } else {
      assert Print([]) + s == s by { PrintNone(); }
    }
  }

  lemma {:induction false} PrintNone()
    ensures Print([]) == ""
  {
  }

  lemma {:induction false} PrintCons(frame: string, frames: seq<string>)
    ensures Print([frame] + frames) == frame + CRLF + Print(frames)
  {
  }

  lemma {:induction false} DrainOfFlat(frames: seq<string>, rest: string)
    requires Flat(rest) && forall f :: f in frames ==> Flat(f)
    ensures Drain(Print(frames) + rest) == (frames, rest)
    decreases |frames|
  {
    var s := Print(frames) + rest;
    if frames == [] {
      assert s == rest;
      FirstCrlfIsFirst(rest);
    } else {
      var f, t := frames[0], Print(frames[1..]) + rest;
      assert s == f + CRLF + t;
      FirstCrlfOfFrame(f, t);
      assert s[..|f|] == f && s[|f| + 2..] == t;
      DrainOfFlat(frames[1..], rest);
      assert frames == [f] + frames[1..];
    }
  }

  /** Draining inverts printing if and only if neither a frame nor the rest has an inner CR LF. */
  lemma {:induction false} DrainInvertsPrint(frames: seq<string>, rest: string)
    ensures Drain(Print(frames) + rest) == (frames, rest) <==> Flat(rest) && forall f :: f in frames ==> Flat(f)
  {
    hide Flat, Print, Drain;
    if Flat(rest) && forall f :: f in frames ==> Flat(f) {
      DrainOfFlat(frames, rest);
    } else {
      DrainConserves(Print(frames) + rest);
    }
  }

  lemma {:induction false} PrintConcat(a: seq<string>, b: seq<string>)
    ensures Print(a + b) == Print(a) + Print(b)
  {
    if a == [] {
      assert a + b == b;
    } else {
      assert (a + b)[1..] == a[1..] + b;
      PrintConcat(a[1..], b);
      assert a[0] + CRLF + (Print(a[1..]) + Print(b)) == a[0] + CRLF + Print(a[1..]) + Print(b);
    }
  }

  /** Draining in two steps is draining at once, wherever the stream is cut. */
  lemma {:induction false} DrainConcat(a: string, b: string)
    ensures var d, e := Drain(a), Drain(Drain(a).1 + b); Drain(a + b) == (d.0 + e.0, e.1)
  {
    hide Drain, Print, FirstCrlf;
    var d, e := Drain(a), Drain(Drain(a).1 + b);
    DrainConserves(a);
    DrainConserves(d.1 + b);
    PrintConcat(d.0, e.0);
    assert a + b == Print(d.0) + (d.1 + b);
    assert Print(d.0) + (Print(e.0) + e.1) == Print(d.0) + Print(e.0) + e.1;
    DrainInvertsPrint(d.0 + e.0, e.1);
  }
}
