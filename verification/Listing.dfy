/** The text of a KEYS response (src/server/dispatcher.h), and what a client can read out of it. */
module Listings {
  import opened Common
  import opened Parser
  import S = ShardStates

  function Line(item: (Key, Value)): string {
    item.0 + ":" + item.1
  }

  function Lines(items: seq<(Key, Value)>): string {
    if items == [] then ""
    else
      var last := items[|items| - 1];
      Lines(items[..|items| - 1]) + (Line(last) + "\n")
  }

  lemma {:induction false} LinesSnoc(items: seq<(Key, Value)>, i: nat)
    requires i < |items|
    ensures Lines(items[..i + 1]) == Lines(items[..i]) + (Line(items[i]) + "\n")
  {
    assert items[..i + 1][..i] == items[..i];
  }

  lemma {:induction false} NoLines()
    ensures Lines([]) == ""
  {
  }

  function DropNewline(s: string): string {
    if s != "" && s[|s| - 1] == '\n' then s[..|s| - 1] else s
  }

  function Text(items: seq<(Key, Value)>): string {
    DropNewline(Lines(items))
  }

  /** The text is the pairs, key and value joined by a colon, with a line break between two of them. */
  lemma {:induction false} TextIsLines(items: seq<(Key, Value)>, k: Key, v: Value)
    ensures Text([]) == ""
    ensures Text(items + [(k, v)]) == if items == [] then k + ":" + v else Text(items) + "\n" + k + ":" + v
  {
    var all, line := items + [(k, v)], k + ":" + v;
    assert all[..|items|] == items && Line((k, v)) == line;
    assert Lines(all) == (Lines(items) + line) + "\n";
    DropNewlineOf(Lines(items) + line);
    if items == [] {
      assert Lines(items) + line == line;
    } else {
      var n := |items| - 1;
      var before := Lines(items[..n]) + Line(items[n]);
      assert Lines(items) == before + "\n";
      DropNewlineOf(before);
      assert before + "\n" + line == before + "\n" + k + ":" + v;
    }
  }

  // ----- Lines read back -----

  function ItemWords(items: seq<(Key, Value)>): seq<string> {
    seq(|items|, i requires 0 <= i < |items| => Line(items[i]))
  }

  lemma {:induction false} JoinSnoc(seps: seq<string>, words: seq<string>, w: string, sep: string)
    requires |seps| == |words| + 1
    ensures Join(seps + [sep], words + [w]) == Join(seps, words) + w + sep
  {
    if words == [] {
      assert (seps + [sep])[1..] == [sep] && ([] + [w])[1..] == [];
    } else {
      assert (seps + [sep])[1..] == seps[1..] + [sep] && (words + [w])[1..] == words[1..] + [w];
      JoinSnoc(seps[1..], words[1..], w, sep);
      assert seps[0] + words[0] + (Join(seps[1..], words[1..]) + w + sep) ==
             seps[0] + words[0] + Join(seps[1..], words[1..]) + w + sep;
    }
  }

  lemma {:induction false} JoinOfNone()
    ensures Separated([""], []) && Join([""], []) == ""
  {
  }

  ghost predicate WordItems(items: seq<(Key, Value)>) {
    forall i :: 0 <= i < |items| ==> Word(items[i].0) && Word(items[i].1)
  }

  lemma {:induction false} LineIsWord(item: (Key, Value))
    requires Word(item.0) && Word(item.1)
    ensures Word(Line(item))
  {
  }

  lemma {:induction false} SeparatedSnoc(seps: seq<string>, words: seq<string>, w: string, sep: string)
    requires Separated(seps, words) && Word(w) && Blank(sep)
    requires words != [] ==> seps[|words|] != ""
    ensures Separated(seps + [sep], words + [w])
  {
  }

  /** Every line ends in a line break. */
  lemma {:induction false} LinesAreJoined(items: seq<(Key, Value)>) returns (seps: seq<string>)
    requires WordItems(items)
    ensures |seps| == |ItemWords(items)| + 1 == |items| + 1
    ensures Separated(seps, ItemWords(items)) && Join(seps, ItemWords(items)) == Lines(items)
    ensures items != [] ==> seps[|items|] == "\n"
  {
    hide Join, Separated, Word;
    if items == [] {
      seps := [""];
      JoinOfNone();
    } else {
      var n := |items| - 1;
      seps := LinesAreJoined(items[..n]);
      OneMoreLine(items, seps, "\n");
      var before, w := Lines(items[..n]), Line(items[n]);
      assert Lines(items) == before + (w + "\n") == before + w + "\n";
      seps := seps + ["\n"];
    }
  }

  lemma {:induction false} OneMoreLine(items: seq<(Key, Value)>, seps: seq<string>, sep: string)
    requires items != [] && WordItems(items) && |seps| == |items| && Blank(sep)
    requires |ItemWords(items[..|items| - 1])| + 1 == |seps|
    requires Separated(seps, ItemWords(items[..|items| - 1]))
    requires Join(seps, ItemWords(items[..|items| - 1])) == Lines(items[..|items| - 1])
    requires |items| > 1 ==> seps[|items| - 1] == "\n"
    ensures Separated(seps + [sep], ItemWords(items))
    ensures Join(seps + [sep], ItemWords(items)) ==
            Lines(items[..|items| - 1]) + Line(items[|items| - 1]) + sep
  {
    hide Join, Separated, Word;
    var n := |items| - 1;
    var words, w := ItemWords(items[..n]), Line(items[n]);
    LineIsWord(items[n]);
    SeparatedSnoc(seps, words, w, sep);
    JoinSnoc(seps, words, w, sep);
    assert ItemWords(items) == words + [w];
  }

  lemma {:induction false} DropNewlineOf(s: string)
    ensures DropNewline(s + "\n") == s
  {
    assert (s + "\n")[..|s|] == s;
  }

  /** For keys and values that are words, the white-space separated words of the text of a KEYS
      response are exactly the lines "k:v". */
  lemma {:induction false} ListingReadsBack(items: seq<(Key, Value)>)
    requires WordItems(items)
    ensures Tokens(Text(items)) == ItemWords(items)
  {
    hide Tokens, Join, DropNewline, Separated, Word;
    if items == [] {
      NoListing();
    } else {
      var n := |items| - 1;
      var before, w := Lines(items[..n]), Line(items[n]);
      var seps := LinesAreJoined(items[..n]);
      OneMoreLine(items, seps, "");
      assert Lines(items) == before + (w + "\n") == before + w + "\n";
      DropNewlineOf(before + w);
      assert before + w + "" == before + w;
      TokensOfJoin(seps + [""], ItemWords(items));
    }
  }

  lemma {:induction false} NoListing()
    ensures Tokens(Text([])) == []
  {
  }

  // ----- Pairs read back -----

  function FirstColon(s: string): (p: nat)
    ensures p <= |s| && (p < |s| ==> s[p] == ':')
    ensures forall i :: 0 <= i < p ==> s[i] != ':'
  {
    if s == "" || s[0] == ':' then 0 else 1 + FirstColon(s[1..])
  }

  /** A line split at its first colon. */
  function SplitLine(line: string): (Key, Value) {
    var p := FirstColon(line);
    if p == |line| then (line, "") else (line[..p], line[p + 1..])
  }

  lemma {:induction false} SplitInvertsLine(item: (Key, Value))
    ensures SplitLine(Line(item)) == item <==> ':' !in item.0
  {
    var line, n := Line(item), |item.0|;
    assert line[..n] == item.0 && line[n] == ':' && line[n + 1..] == item.1;
    if ':' in item.0 {
      var i :| 0 <= i < n && item.0[i] == ':';
      assert line[i] == ':';
    } else {
      assert forall i :: 0 <= i < n ==> line[i] == item.0[i];
    }
  }

  /** Splitting every line at its first colon gives the listing back if and only if no key holds
      a colon. */
  lemma {:induction false} PairsReadBack(items: seq<(Key, Value)>)
    requires WordItems(items)
    ensures |Tokens(Text(items))| == |items|
    ensures (forall i :: 0 <= i < |items| ==> SplitLine(Tokens(Text(items))[i]) == items[i])
            <==> (forall i :: 0 <= i < |items| ==> ':' !in items[i].0)
  {
    hide Tokens, Text, SplitLine, Line;
    ListingReadsBack(items);
    forall i | 0 <= i < |items|
      ensures SplitLine(Tokens(Text(items))[i]) == items[i] <==> ':' !in items[i].0
    {
      SplitInvertsLine(items[i]);
    }
  }

  /** The only colon of the line with something on both sides is the separator. */
  predicate OneSplit(item: (Key, Value))
    requires Word(item.0) && Word(item.1)
  {
    ':' !in item.0[1..] && ':' !in item.1[..|item.1| - 1]
  }

  lemma {:induction false} SameLine(a: (Key, Value), b: (Key, Value))
    requires Word(a.0) && Word(a.1) && Word(b.0) && Word(b.1) && OneSplit(a) && Line(a) == Line(b)
    ensures a == b
  {
    var line, m, n := Line(a), |a.0|, |b.0|;
    assert forall p :: 0 < p < m ==> line[p] == a.0[1..][p - 1];
    assert forall p :: m < p < |line| - 1 ==> line[p] == a.1[..|a.1| - 1][p - m - 1];
    assert line[n] == ':';
    assert line[..m] == a.0 && line[m + 1..] == a.1 && line[..n] == b.0 && line[n + 1..] == b.1;
  }

  /** A second colon allows a second reading. */
  lemma {:induction false} OtherReading(a: (Key, Value)) returns (b: (Key, Value))
    requires Word(a.0) && Word(a.1) && !OneSplit(a)
    ensures Word(b.0) && Word(b.1) && Line(b) == Line(a) && b != a
  {
    if ':' in a.0[1..] {
      var i :| 0 <= i < |a.0| - 1 && a.0[1..][i] == ':';
      b := SplitAt(a, i + 1);
    } else {
      var i :| 0 <= i < |a.1| - 1 && a.1[..|a.1| - 1][i] == ':';
      b := SplitAt(a, |a.0| + 1 + i);
    }
  }

  lemma {:induction false} SplitAt(a: (Key, Value), p: nat) returns (b: (Key, Value))
    requires Word(a.0) && Word(a.1) && 0 < p < |Line(a)| - 1 && Line(a)[p] == ':' && p != |a.0|
    ensures Word(b.0) && Word(b.1) && Line(b) == Line(a) && b != a
  {
    var line := Line(a);
    LineIsWord(a);
    b := (line[..p], line[p + 1..]);
    assert b.0 + ":" + b.1 == line;
  }

  lemma {:induction false} SameText(a: seq<(Key, Value)>, b: seq<(Key, Value)>)
    requires ItemWords(a) == ItemWords(b)
    ensures Lines(a) == Lines(b)
  {
    hide Line;
    assert |ItemWords(a)| == |a| && |ItemWords(b)| == |b|;
    if a == [] {
    } else {
      var n := |a| - 1;
      assert ItemWords(a)[n] == Line(a[n]) && ItemWords(b)[n] == Line(b[n]);
      assert ItemWords(a[..n]) == ItemWords(a)[..n] && ItemWords(b[..n]) == ItemWords(b)[..n];
      SameText(a[..n], b[..n]);
    }
  }

  /** Among arbitrary texts, listings that repeat a key included: no other listing of words has the
      same text, if and only if every line can be split in only one way. */
  lemma {:induction false} TextDeterminesItems(items: seq<(Key, Value)>)
    requires WordItems(items)
    ensures (forall other :: WordItems(other) && Text(other) == Text(items) ==> other == items)
            <==> (forall i :: 0 <= i < |items| ==> OneSplit(items[i]))
  {
    hide Line, Lines, Tokens, DropNewline, Word, OneSplit;
    if forall i :: 0 <= i < |items| ==> OneSplit(items[i]) {
      forall other | WordItems(other) && Text(other) == Text(items) ensures other == items {
        SameItems(items, other);
      }
    } else {
      var i :| 0 <= i < |items| && !OneSplit(items[i]);
      var item := OtherReading(items[i]);
      var other := items[i := item];
      assert ItemWords(other) == ItemWords(items);
      SameText(other, items);
      assert WordItems(other) && other[i] != items[i];
    }
  }

  lemma {:induction false} SameItems(a: seq<(Key, Value)>, b: seq<(Key, Value)>)
    requires WordItems(a) && WordItems(b) && Text(a) == Text(b)
    requires forall i :: 0 <= i < |a| ==> OneSplit(a[i])
    ensures a == b
  {
    hide Line, Text, Tokens, Word, OneSplit;
    ListingReadsBack(a);
    ListingReadsBack(b);
    assert |a| == |ItemWords(a)| == |b|;
    forall i | 0 <= i < |a| ensures a[i] == b[i] {
      assert ItemWords(a)[i] == Line(a[i]) && ItemWords(b)[i] == Line(b[i]);
      SameLine(a[i], b[i]);
    }
  }

  // ----- Pairs read back when no key is listed twice -----

  /** The line can be read as a pair with this key. */
  predicate CanRead(line: string, key: Key) {
    key != "" && |key| + 1 < |line| && line[..|key|] == key && line[|key|] == ':'
  }

  /** `key` is the key of a line that cannot be read with the key `own` instead. */
  ghost predicate Taken(items: seq<(Key, Value)>, key: Key, own: Key) {
    exists j :: 0 <= j < |items| && items[j].0 == key && !CanRead(Line(items[j]), own)
  }

  /** Every other key that a line can be read with is taken by another line, which cannot have the
      first one's key in turn. */
  ghost predicate Settled(items: seq<(Key, Value)>) {
    forall i, key :: 0 <= i < |items| && key != items[i].0 && CanRead(Line(items[i]), key) ==>
      Taken(items, key, items[i].0)
  }

  /** The pair that a line is read as. */
  function Reading(line: string, key: Key): (Key, Value)
    requires CanRead(line, key)
  {
    (key, line[|key| + 1..])
  }

  lemma {:induction false} ReadingFacts(line: string, key: Key)
    requires Word(line) && CanRead(line, key)
    ensures Line(Reading(line, key)) == line && Word(key) && Word(Reading(line, key).1)
  {
    assert key + ":" + line[|key| + 1..] == line;
  }

  lemma {:induction false} OwnKeyReads(item: (Key, Value))
    requires Word(item.0) && Word(item.1)
    ensures CanRead(Line(item), item.0) && Reading(Line(item), item.0) == item
  {
    var line, n := Line(item), |item.0|;
    assert line[..n] == item.0 && line[n] == ':' && line[n + 1..] == item.1;
  }

  /** A line that can take the longer key of two can be read with the shorter one. */
  lemma {:induction false} ShorterKeyReads(line: string, short: Key, item: (Key, Value))
    requires Word(item.1) && CanRead(line, short) && CanRead(line, item.0) && |short| < |item.0|
    ensures CanRead(Line(item), short)
  {
    var long, n := item.0, |short|;
    assert Line(item)[..|long|] == long;
    assert line[..|long|][..n] == line[..n] && line[..|long|][n] == ':';
    assert Line(item)[..|long|][..n] == Line(item)[..n];
  }

  /** Another reading with another key, which no other line has or whose line can take this one's. */
  lemma {:induction false} UnsettledIsAmbiguous(items: seq<(Key, Value)>) returns (other: seq<(Key, Value)>)
    requires WordItems(items) && S.KeysOnce(items) && !Settled(items)
    ensures WordItems(other) && S.KeysOnce(other) && ItemWords(other) == ItemWords(items) && other != items
  {
    var i, key :| 0 <= i < |items| && key != items[i].0 && CanRead(Line(items[i]), key)
      && !Taken(items, key, items[i].0);
    var line := Line(items[i]);
    LineIsWord(items[i]);
    ReadingFacts(line, key);
    other := items[i := Reading(line, key)];
    if j :| 0 <= j < |items| && items[j].0 == key {
      LineIsWord(items[j]);
      ReadingFacts(Line(items[j]), items[i].0);
      other := other[j := Reading(Line(items[j]), items[i].0)];
    }
    assert other[i].0 == key;
  }

  /** Two listings with the same lines but different pairs differ in a key. */
  lemma {:induction false} SameKeySameItem(a: (Key, Value), b: (Key, Value))
    requires Line(a) == Line(b) && a.0 == b.0
    ensures a == b
  {
    var n := |a.0|;
    assert Line(a)[n + 1..] == a.1 && Line(b)[n + 1..] == b.1;
  }

  /** Of the lines read differently, one with the shortest key. */
  lemma {:induction false} ShortestDifference(a: seq<(Key, Value)>, b: seq<(Key, Value)>) returns (i: nat)
    requires |a| == |b| && exists j :: 0 <= j < |a| && a[j].0 != b[j].0
    ensures i < |a| && a[i].0 != b[i].0
    ensures forall j :: 0 <= j < |a| && a[j].0 != b[j].0 ==> |a[i].0| <= |a[j].0|
  {
    var n := |a| - 1;
    if j :| 0 <= j < n && a[j].0 != b[j].0 {
      assert a[..n][j] == a[j] && b[..n][j] == b[j];
      i := ShortestDifference(a[..n], b[..n]);
      assert forall j :: 0 <= j < n ==> a[..n][j] == a[j] && b[..n][j] == b[j];
      if a[n].0 != b[n].0 && |a[n].0| < |a[i].0| { i := n; }
    } else {
      i := n;
    }
  }

  lemma {:induction false} SettledIsUnique(items: seq<(Key, Value)>, other: seq<(Key, Value)>)
    requires WordItems(items) && WordItems(other) && S.KeysOnce(items) && S.KeysOnce(other)
    requires Settled(items) && |items| == |other| && ItemWords(items) == ItemWords(other)
    ensures items == other
  {
    hide Line, Word;
    forall j | 0 <= j < |items| ensures Line(items[j]) == Line(other[j]) {
      assert ItemWords(items)[j] == ItemWords(other)[j];
    }
    if exists j :: 0 <= j < |items| && items[j].0 != other[j].0 {
      var i := ShortestDifference(items, other);
      OwnKeyReads(items[i]);
      OwnKeyReads(other[i]);
      assert Taken(items, other[i].0, items[i].0);
      var j :| 0 <= j < |items| && items[j].0 == other[i].0 && !CanRead(Line(items[j]), items[i].0);
      if |items[i].0| < |other[i].0| { ShorterKeyReads(Line(items[i]), items[i].0, items[j]); }
      assert false;
    }
    forall j | 0 <= j < |items| ensures items[j] == other[j] {
      SameKeySameItem(items[j], other[j]);
    }
  }

  /** A client that knows that no key is listed twice can recover the pairs, if and only if every
      second reading of a line is settled by the other lines. */
  lemma {:induction false} TextDeterminesListing(items: seq<(Key, Value)>)
    requires WordItems(items) && S.KeysOnce(items)
    ensures (forall other :: WordItems(other) && S.KeysOnce(other) && Text(other) == Text(items) ==> other == items)
            <==> Settled(items)
  {
    hide Line, Lines, Tokens, DropNewline, Word, Settled, CanRead, S.KeysOnce;
    if Settled(items) {
      forall other | WordItems(other) && S.KeysOnce(other) && Text(other) == Text(items) ensures other == items {
        ListingReadsBack(items);
        ListingReadsBack(other);
        assert |items| == |ItemWords(items)| == |other|;
        SettledIsUnique(items, other);
      }
    } else {
      var other := UnsettledIsAmbiguous(items);
      SameText(other, items);
    }
  }

  /** A second colon need not be ambiguous: "a:b" may not be read as "a" when "a" is listed itself. */
  lemma {:induction false} OtherLinesSettle()
    ensures var items := [("a:b", "c"), ("a", "d")];
            WordItems(items) && S.KeysOnce(items) && !OneSplit(items[0]) && Settled(items)
  {
    var items := [("a:b", "c"), ("a", "d")];
    assert "a:b"[1..][0] == ':';
    assert Line(items[0]) == "a:b:c" && Line(items[1]) == "a:d";
    forall i, key | 0 <= i < |items| && key != items[i].0 && CanRead(Line(items[i]), key)
      ensures Taken(items, key, items[i].0)
    {
      assert items[1].0 == key && !CanRead(Line(items[1]), items[i].0) by {
        assert |key| == 1 || |key| == 2 || |key| == 3;
        assert key == "a:d"[..|key|] || key == "a:b:c"[..|key|];
      }
    }
  }

  /** A colon in a key makes two different stores look alike. */
  lemma {:induction false} ColonIsAmbiguous()
    ensures var a, b := [("a", "b:c")], [("a:b", "c")];
            WordItems(a) && WordItems(b) && a != b && Text(a) == Text(b) == "a:b:c"
  {
    var a, b := [("a", "b:c")], [("a:b", "c")];
    assert a[..0] == [] && b[..0] == [];
    assert Lines(a) == "a:b:c" + "\n" && Lines(b) == "a:b:c" + "\n";
    DropNewlineOf("a:b:c");
  }
}
