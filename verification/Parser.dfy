/** The command tokeniser (src/protocol/parser.h). */
module Parser {
  import opened Common

  datatype Request = Request(command: string, args: seq<string>)

  /** White space of the C locale: blank, tab, line feed, vertical tab, form feed, CR. */
  predicate IsSpace(c: char) {
    c == ' ' || '\t' <= c <= '\r'
  }

  predicate Blank(s: string) {
    forall i :: 0 <= i < |s| ==> IsSpace(s[i])
  }

  predicate Word(s: string) {
    s != "" && forall i :: 0 <= i < |s| ==> !IsSpace(s[i])
  }

  function SkipSpaces(s: string): (r: string)
    ensures |r| <= |s|
  {
    if s != "" && IsSpace(s[0]) then SkipSpaces(s[1..]) else s
  }

  function WordLength(s: string): (n: nat)
    ensures n <= |s|
    ensures s != "" && !IsSpace(s[0]) ==> n > 0
  {
    if s == "" || IsSpace(s[0]) then 0 else 1 + WordLength(s[1..])
  }

  /** What `stream >> token` extracts, and the stream after it. */
  function Extract(s: string): (r: Option<(string, string)>)
    ensures r.Some? ==> |r.value.1| < |s|
  {
    var t := SkipSpaces(s);
    if WordLength(t) == 0 then None else Some((t[..WordLength(t)], t[WordLength(t)..]))
  }

  function Tokens(s: string): seq<string>
    decreases |s|
  {
    match Extract(s)
    case None => []
    case Some((token, rest)) => [token] + Tokens(rest)
  }

  /** The white space that separates words, written out. */
  lemma {:induction false} SpaceIsOneOfSix(c: char)
    ensures IsSpace(c) <==> c in " \t\n\U{0B}\U{0C}\r"
  {
    var six := " \t\n\U{0B}\U{0C}\r";
    assert six[0] == ' ' && six[1] == '\t' && six[2] == '\n';
    assert six[3] == '\U{0B}' && six[4] == '\U{0C}' && six[5] == '\r';
    assert '\U{0B}' as int == 11 && '\U{0C}' as int == 12;
    assert IsSpace(c) ==> c == six[0] || 9 <= c as int <= 13;
  }

  lemma {:induction false} WordHoldsNoneOfSix(s: string)
    ensures Word(s) <==> s != "" && forall c :: c in s ==> c !in " \t\n\U{0B}\U{0C}\r"
  {
    forall c ensures IsSpace(c) <==> c in " \t\n\U{0B}\U{0C}\r" { SpaceIsOneOfSix(c); }
  }

  /** An empty command makes the source throw. */
  method Parse(input: string) returns (r: Outcome<Request>)
    ensures r.Returned? <==> Tokens(input) != []
    ensures r.Returned? ==> r.value == Request(Tokens(input)[0], Tokens(input)[1..])
  {
    hide Extract;
    var stream, tokens := input, [];
    var next := Extract(stream);
    while next.Some?
      invariant next == Extract(stream)
      invariant tokens + Tokens(stream) == Tokens(input)
      decreases |stream|
    {
      var (token, rest) := next.value;
      assert Tokens(stream) == [token] + Tokens(rest);
      assert (tokens + [token]) + Tokens(rest) == tokens + ([token] + Tokens(rest));
      tokens := tokens + [token];
      stream := rest;
      next := Extract(stream);
    }
    assert Tokens(stream) == [];
    if tokens == [] {
      return Thrown("Empty command");
    }
    return Returned(Request(tokens[0], tokens[1..]));
  }

  function ParseResult(input: string): Option<Request> {
    var t := Tokens(input);
    if t == [] then None else Some(Request(t[0], t[1..]))
  }

  // ----- Tokens are the words between the separators -----

  /** Words with white space around them; between two words there is some. */
  predicate Separated(seps: seq<string>, words: seq<string>) {
    && |seps| == |words| + 1
    && (forall i :: 0 <= i < |seps| ==> Blank(seps[i]))
    && (forall i :: 0 < i < |words| ==> seps[i] != "")
    && (forall i :: 0 <= i < |words| ==> Word(words[i]))
  }

  function Join(seps: seq<string>, words: seq<string>): string
    requires |seps| == |words| + 1
  {
    if words == [] then seps[0] else seps[0] + words[0] + Join(seps[1..], words[1..])
  }

  lemma {:induction false} SkipBlank(a: string, b: string)
    requires Blank(a) && (b == "" || !IsSpace(b[0]))
    ensures SkipSpaces(a + b) == b
  {
    if a == "" {
      assert a + b == b;
    } else {
      assert (a + b)[1..] == a[1..] + b;
      SkipBlank(a[1..], b);
    }
  }

  lemma {:induction false} WordLengthOf(w: string, b: string)
    requires forall i :: 0 <= i < |w| ==> !IsSpace(w[i])
    requires b == "" || IsSpace(b[0])
    ensures WordLength(w + b) == |w|
  {
    if w == "" {
      assert w + b == b;
    } else {
      assert (w + b)[1..] == w[1..] + b;
      WordLengthOf(w[1..], b);
    }
  }

  lemma {:induction false} JoinStarts(seps: seq<string>, words: seq<string>)
    requires Separated(seps, words) && (words == [] || seps[0] != "")
    ensures Join(seps, words) == "" || IsSpace(Join(seps, words)[0])
  {
  }

  /** Reading back: any spacing of given words is tokenised to exactly these words. */
  lemma {:induction false} TokensOfJoin(seps: seq<string>, words: seq<string>)
    requires Separated(seps, words)
    ensures Tokens(Join(seps, words)) == words
    decreases |words|
  {
    var s := Join(seps, words);
    if words == [] {
      SkipBlank(s, "");
      assert s + "" == s;
    } else {
      var w, rest := words[0], Join(seps[1..], words[1..]);
      assert Word(w) && w[0] == (w + rest)[0];
      assert Separated(seps[1..], words[1..]);
      JoinStarts(seps[1..], words[1..]);
      assert s == seps[0] + (w + rest);
      SkipBlank(seps[0], w + rest);
      WordLengthOf(w, rest);
      assert (w + rest)[..|w|] == w && (w + rest)[|w|..] == rest;
      TokensOfJoin(seps[1..], words[1..]);
      assert words == [w] + words[1..];
    }
  }

  /** Each of the six separates two words, and nothing else does. */
  lemma {:induction false} SixSeparate(a: string, c: char, b: string)
    requires a != "" && b != "" && forall x :: x in a + b ==> x !in " \t\n\U{0B}\U{0C}\r"
    ensures Tokens(a + [c] + b) == if c in " \t\n\U{0B}\U{0C}\r" then [a, b] else [a + [c] + b]
  {
    hide Tokens, IsSpace;
    forall x | x in a ensures x in a + b { }
    forall x | x in b ensures x in a + b { }
    WordHoldsNoneOfSix(a);
    WordHoldsNoneOfSix(b);
    SpaceIsOneOfSix(c);
    if c in " \t\n\U{0B}\U{0C}\r" {
      JoinTwo(a, [c], b);
      assert Separated(["", [c], ""], [a, b]);
      TokensOfJoin(["", [c], ""], [a, b]);
    } else {
      var w := a + [c] + b;
      assert Word(w);
      assert ["", ""][1..] == [""] && [w][1..] == [];
      assert Join(["", ""], [w]) == "" + w + Join([""], []) == w;
      TokensOfJoin(["", ""], [w]);
    }
  }

  lemma {:induction false} JoinTwo(a: string, sep: string, b: string)
    ensures Join(["", sep, ""], [a, b]) == a + sep + b
  {
    assert ["", sep, ""][1..] == [sep, ""] && [a, b][1..] == [b] && [sep, ""][1..] == [""] && [b][1..] == [];
    assert Join([""], []) == "";
    assert Join([sep, ""], [b]) == sep + b + "" == sep + b;
    assert "" + a + (sep + b) == a + sep + b;
  }

  lemma {:induction false} SkipSplits(s: string) returns (n: nat)
    ensures n <= |s| && Blank(s[..n]) && s[n..] == SkipSpaces(s)
    ensures SkipSpaces(s) == "" || !IsSpace(SkipSpaces(s)[0])
  {
    if s != "" && IsSpace(s[0]) {
      n := SkipSplits(s[1..]);
      n := n + 1;
      assert s[..n] == [s[0]] + s[1..][..n - 1];
    } else {
      n := 0;
    }
  }

  lemma {:induction false} WordSplits(s: string)
    ensures forall i :: 0 <= i < WordLength(s) ==> !IsSpace(s[i])
    ensures WordLength(s) < |s| ==> IsSpace(s[WordLength(s)])
  {
    if s == "" || IsSpace(s[0]) {
    } else {
      WordSplits(s[1..]);
      forall i | 0 <= i < WordLength(s) ensures !IsSpace(s[i]) {
        if i > 0 { assert s[i] == s[1..][i - 1]; }
      }
    }
  }

  /** The first token, what is before it and what is after it. */
  lemma {:induction false} ExtractSplits(s: string) returns (sep: string)
    ensures Blank(sep) && (s != "" && IsSpace(s[0]) ==> sep != "")
    ensures match Extract(s)
            case None => s == sep
            case Some((w, rest)) => s == sep + w + rest && Word(w) && (rest == "" || IsSpace(rest[0]))
  {
    hide SkipSpaces, WordLength;
    var n := SkipSplits(s);
    var t := SkipSpaces(s);
    sep := s[..n];
    WordSplits(t);
    assert s == sep + t;
    assert t == t[..WordLength(t)] + t[WordLength(t)..];
  }

  /** Every input is some spacing of its tokens. */
  lemma {:induction false} InputIsJoin(s: string) returns (seps: seq<string>)
    ensures Separated(seps, Tokens(s)) && Join(seps, Tokens(s)) == s
    ensures s != "" && IsSpace(s[0]) ==> seps[0] != ""
    decreases |s|
  {
    hide Extract, IsSpace;
    var sep := ExtractSplits(s);
    if Extract(s).None? {
      seps := [sep];
    } else {
      var (w, rest) := Extract(s).value;
      var more := InputIsJoin(rest);
      seps := [sep] + more;
      assert Tokens(s) == [w] + Tokens(rest);
      assert seps[1..] == more && Tokens(s)[1..] == Tokens(rest);
      if rest == "" { NoTokens(); }
    }
  }

  lemma {:induction false} NoTokens()
    ensures Tokens("") == []
  {
  }

  /** The tokens of an input are the only words it is a spacing of. */
  lemma {:induction false} TokensAreTheWords(s: string, words: seq<string>)
    ensures words == Tokens(s) <==> exists seps :: Separated(seps, words) && s == Join(seps, words)
  {
    if words == Tokens(s) {
      var seps := InputIsJoin(s);
    }
    if seps :| Separated(seps, words) && s == Join(seps, words) {
      TokensOfJoin(seps, words);
    }
  }

  /** Parsing fails exactly on blank input. */
  lemma {:induction false} FailsIffBlank(s: string)
    ensures ParseResult(s) == None <==> Blank(s)
  {
    if Blank(s) {
      SkipBlank(s, "");
      assert s + "" == s;
    } else {
      var seps := InputIsJoin(s);
    }
  }

  /** The single-space form of a request. */
  function PrintRequest(r: Request): string {
    r.command + PrintArgs(r.args)
  }

  function PrintArgs(args: seq<string>): string {
    if args == [] then "" else " " + args[0] + PrintArgs(args[1..])
  }

  /** A request that survives the wire: words only. */
  predicate Plain(r: Request) {
    Word(r.command) && forall i :: 0 <= i < |r.args| ==> Word(r.args[i])
  }

  lemma {:induction false} PrintArgsIsJoin(args: seq<string>) returns (seps: seq<string>)
    requires forall i :: 0 <= i < |args| ==> Word(args[i])
    ensures Separated(seps, args) && PrintArgs(args) == Join(seps, args)
    ensures args == [] || seps[0] != ""
  {
    if args == [] {
      seps := [""];
    } else {
      var more := PrintArgsIsJoin(args[1..]);
      seps := [" "] + more;
      assert seps[1..] == more;
    }
  }

  lemma {:induction false} ParseOfPlain(r: Request)
    requires Plain(r)
    ensures ParseResult(PrintRequest(r)) == Some(r)
  {
    var seps := PrintArgsIsJoin(r.args);
    var words := [r.command] + r.args;
    assert words[1..] == r.args && ([""] + seps)[1..] == seps;
    assert Separated([""] + seps, words);
    TokensOfJoin([""] + seps, words);
    assert Join([""] + seps, words) == PrintRequest(r);
  }

  lemma {:induction false} ParsedIsPlain(s: string)
    ensures ParseResult(s).Some? ==> Plain(ParseResult(s).value)
  {
    var seps := InputIsJoin(s);
  }

  /** Parsing inverts printing exactly for the requests made of words. */
  lemma {:induction false} ParseInvertsPrint(r: Request)
    ensures ParseResult(PrintRequest(r)) == Some(r) <==> Plain(r)
  {
    hide Plain, ParseResult, PrintRequest;
    if Plain(r) {
      ParseOfPlain(r);
    } else {
      ParsedIsPlain(PrintRequest(r));
    }
  }

  /** Printing what was parsed and parsing it again gives the same request. */
  lemma {:induction false} ParsePrintParse(s: string)
    requires ParseResult(s).Some?
    ensures ParseResult(PrintRequest(ParseResult(s).value)) == ParseResult(s)
  {
    ParsedIsPlain(s);
    ParseInvertsPrint(ParseResult(s).value);
  }
}
