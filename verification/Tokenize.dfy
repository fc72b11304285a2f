/** The tokenizer of the WP-CLI console: quoted arguments, no shell metacharacters. */
module Tokenize {
  import opened Text

  /** The characters that are refused, in the order in which they are looked for. */
  const REJECTED := [';', '|', '&', '`', '$', '(', ')', '<', '>', '\n', '\r']

  datatype Outcome =
    | Tokens(tokens: seq<string>)
    | NotAllowed(c: char)
    | Unclosed
    | Empty

  /** The scanner's variables. */
  datatype Scan = Scan(tokens: seq<string>, current: string, inSingle: bool, inDouble: bool)

  predicate IsNeutral(sc: Scan) {
    !sc.inSingle && !sc.inDouble
  }

  function EndToken(sc: Scan): Scan {
    if sc.current == "" then sc else sc.(tokens := sc.tokens + [sc.current], current := "")
  }

  function Step(sc: Scan, ch: char): Scan {
    if ch == '\'' && !sc.inDouble then sc.(inSingle := !sc.inSingle)
    else if ch == '"' && !sc.inSingle then sc.(inDouble := !sc.inDouble)
    else if IsWhitespace(ch) && IsNeutral(sc) then EndToken(sc)
    else sc.(current := sc.current + [ch])
  }

  function ScanAll(sc: Scan, s: string): Scan
    decreases |s|
  {
    if s == "" then sc else ScanAll(Step(sc, s[0]), s[1..])
  }

  const START := Scan([], "", false, false)

  /** The first refused character of `from` on that the line contains. */
  function FirstRejected(line: string, rejected: seq<char>): Option<char> {
    if rejected == [] then None
    else if rejected[0] in line then Some(rejected[0])
    else FirstRejected(line, rejected[1..])
  }

  function Verdict(end: Scan): Outcome {
    if !IsNeutral(end) then Unclosed
    else if EndToken(end).tokens == [] then Empty
    else Tokens(EndToken(end).tokens)
  }

  function Tokenized(line: string, rejected: seq<char>): Outcome {
    var trimmed := Trim(line);
    if trimmed == "" then Empty
    else
      match FirstRejected(trimmed, rejected)
      case Some(c) => NotAllowed(c)
      case None => Verdict(ScanAll(START, trimmed))
  }

  method Tokenize(input: string, rejected: seq<char>) returns (r: Outcome)
    ensures r == Tokenized(input, rejected)
  {
    var line := Trim(input);
    if line == "" {
      return Empty;
    }
    assert rejected[0..] == rejected;
    for i := 0 to |rejected|
      invariant FirstRejected(line, rejected[i..]) == FirstRejected(line, rejected)
    {
      if rejected[i] in line {
        return NotAllowed(rejected[i]);
      }
      DropTwice(rejected, i, 1);
    }
    var tokens: seq<string> := [];
    var current := "";
    var inSingle := false;
    var inDouble := false;
    assert line[0..] == line;
    for i := 0 to |line|
      invariant ScanAll(Scan(tokens, current, inSingle, inDouble), line[i..]) == ScanAll(START, line)
    {
      var ch := line[i];
      DropTwice(line, i, 1);
      if ch == '\'' && !inDouble {
        inSingle := !inSingle;
      } else if ch == '"' && !inSingle {
        inDouble := !inDouble;
      } else if IsWhitespace(ch) && !inSingle && !inDouble {
        if current != "" {
          tokens, current := tokens + [current], "";
        }
      } else {
        current := current + [ch];
      }
    }
    if current != "" {
      tokens := tokens + [current];
    }
    if inSingle || inDouble {
      return Unclosed;
    }
    if tokens == [] {
      return Empty;
    }
    r := Tokens(tokens);
  }

  // ---------------------------------------------------------------------------------------
  // What the tokens of a line are
  // ---------------------------------------------------------------------------------------

  /** The quote that is open, if any. */
  datatype Open = Neither | Single | Double

  function OpenOf(sc: Scan): Open {
    if sc.inSingle then Single else if sc.inDouble then Double else Neither
  }

  function NextOpen(c: char, open: Open): Open {
    match open
    case Neither => if c == '\'' then Single else if c == '"' then Double else Neither
    case Single => if c == '\'' then Neither else Single
    case Double => if c == '"' then Neither else Double
  }

  /** An active quote opens or closes; unquoted whitespace separates. */
  function KeptOf(c: char, open: Open): string {
    if NextOpen(c, open) != open || (open == Neither && IsWhitespace(c)) then "" else [c]
  }

  /** The characters of a line that are neither an active quote nor unquoted whitespace. */
  function Kept(s: string, open: Open): string {
    if s == "" then "" else KeptOf(s[0], open) + Kept(s[1..], NextOpen(s[0], open))
  }

  /** The quote left open at the end. */
  function OpenAfter(s: string, open: Open): Open {
    if s == "" then open else OpenAfter(s[1..], NextOpen(s[0], open))
  }

  function Flat(ts: seq<string>): string {
    if ts == [] then "" else Flat(ts[..|ts| - 1]) + ts[|ts| - 1]
  }

  ghost predicate Proper(ts: seq<string>) {
    forall i :: 0 <= i < |ts| ==> ts[i] != ""
  }

  ghost predicate ScanOk(sc: Scan) {
    !(sc.inSingle && sc.inDouble) && Proper(sc.tokens)
  }

  lemma FlatSnoc(ts: seq<string>, t: string)
    ensures Flat(ts + [t]) == Flat(ts) + t
  {
    assert (ts + [t])[..|ts + [t]| - 1] == ts;
  }

  lemma FlatOfEnd(sc: Scan)
    ensures EndToken(sc).current == ""
    ensures Flat(EndToken(sc).tokens) == Flat(sc.tokens) + sc.current
  {
    if sc.current == "" {
      assert Flat(sc.tokens) + "" == Flat(sc.tokens);
    } else {
      FlatSnoc(sc.tokens, sc.current);
    }
  }

  /** Nothing is lost, added or moved. */
  lemma {:induction false} ScanKeeps(sc: Scan, s: string)
    requires ScanOk(sc)
    ensures var end := ScanAll(sc, s);
            && ScanOk(end) && OpenOf(end) == OpenAfter(s, OpenOf(sc))
            && Flat(end.tokens) + end.current == (Flat(sc.tokens) + sc.current) + Kept(s, OpenOf(sc))
    decreases |s|
  {
    var before := Flat(sc.tokens) + sc.current;
    if s == "" {
      assert before + "" == before;
    } else {
      StepKeeps(sc, s[0]);
      ScanKeeps(Step(sc, s[0]), s[1..]);
      Assoc(before, KeptOf(s[0], OpenOf(sc)), Kept(s[1..], NextOpen(s[0], OpenOf(sc))));
    }
  }

  lemma StepKeeps(sc: Scan, c: char)
    requires ScanOk(sc)
    ensures ScanOk(Step(sc, c)) && OpenOf(Step(sc, c)) == NextOpen(c, OpenOf(sc))
    ensures Flat(Step(sc, c).tokens) + Step(sc, c).current == (Flat(sc.tokens) + sc.current) + KeptOf(c, OpenOf(sc))
  {
    StepKeepsText(sc, c, OpenOf(sc));
  }

  lemma StepKeepsText(sc: Scan, c: char, open: Open)
    requires open == OpenOf(sc) && !(sc.inSingle && sc.inDouble)
    ensures Flat(Step(sc, c).tokens) + Step(sc, c).current == (Flat(sc.tokens) + sc.current) + KeptOf(c, open)
  {
    var before := Flat(sc.tokens) + sc.current;
    if NextOpen(c, open) != open {
      Nothing(before);
    } else if open == Neither && IsWhitespace(c) {
      FlatOfEnd(sc);
      Nothing(before);
      Nothing(Flat(EndToken(sc).tokens));
    } else {
      Assoc(Flat(sc.tokens), sc.current, [c]);
    }
  }

  lemma Nothing(s: string)
    ensures s + "" == s
  {
  }

  /** On every accepted line the tokens, none of them empty, are together the line without its
      active quotes and its unquoted whitespace; and what is accepted is exactly the lines
      without a refused character, with closed quotes and with anything to keep. */
  lemma TokensAreTheLine(line: string, rejected: seq<char>)
    ensures var trimmed := Trim(line);
            Tokenized(line, rejected).Tokens?
            <==> && (forall c :: c in rejected ==> c !in trimmed)
                 && OpenAfter(trimmed, Neither) == Neither
                 && Kept(trimmed, Neither) != ""
    ensures match Tokenized(line, rejected)
            case Tokens(ts) => ts != [] && Proper(ts) && Flat(ts) == Kept(Trim(line), Neither)
            case _ => true
  {
    var trimmed := Trim(line);
    RejectedIff(trimmed, rejected);
    ScanKeeps(START, trimmed);
    assert (Flat(START.tokens) + START.current) + Kept(trimmed, Neither) == Kept(trimmed, Neither);
    VerdictMeans(ScanAll(START, trimmed), Kept(trimmed, Neither));
  }

  lemma VerdictMeans(end: Scan, kept: string)
    requires ScanOk(end) && Flat(end.tokens) + end.current == kept
    ensures Verdict(end).Tokens? <==> OpenOf(end) == Neither && kept != ""
    ensures match Verdict(end)
            case Tokens(ts) => ts != [] && Proper(ts) && Flat(ts) == kept
            case _ => true
  {
    EndIsProper(end);
    FlatIsEmpty(EndToken(end).tokens);
  }

  lemma EndIsProper(sc: Scan)
    requires ScanOk(sc)
    ensures Proper(EndToken(sc).tokens) && Flat(EndToken(sc).tokens) == Flat(sc.tokens) + sc.current
  {
    FlatOfEnd(sc);
  }

  lemma FlatIsEmpty(ts: seq<string>)
    requires Proper(ts)
    ensures Flat(ts) == "" <==> ts == []
  {
    if ts != [] {
      assert ts[|ts| - 1] != "";
    }
  }

  lemma {:induction false} RejectedIff(line: string, rejected: seq<char>)
    ensures FirstRejected(line, rejected) == None <==> forall c :: c in rejected ==> c !in line
    ensures match FirstRejected(line, rejected)
            case Some(c) => c in rejected && c in line
            case None => true
  {
    if rejected != [] {
      RejectedIff(line, rejected[1..]);
      assert rejected == [rejected[0]] + rejected[1..];
    }
  }

  // ---------------------------------------------------------------------------------------
  // Which tokens a line can be written for
  // ---------------------------------------------------------------------------------------

  /** A character between quotes of the other kind. */
  function QuoteChar(c: char): string {
    if c == '\'' then "\"'\"" else ['\'', c, '\'']
  }

  function QuoteToken(t: string): string {
    if t == "" then "" else QuoteToken(t[..|t| - 1]) + QuoteChar(t[|t| - 1])
  }

  function Line(ts: seq<string>): string {
    if ts == [] then ""
    else if |ts| == 1 then QuoteToken(ts[0])
    else (Line(ts[..|ts| - 1]) + " ") + QuoteToken(ts[|ts| - 1])
  }

  lemma {:induction false} ScanConcat(sc: Scan, a: string, b: string)
    ensures ScanAll(sc, a + b) == ScanAll(ScanAll(sc, a), b)
    decreases |a|
  {
    if a == "" {
      assert a + b == b;
    } else {
      SplitConcat(a, b, 1);
      ScanConcat(Step(sc, a[0]), a[1..], b);
    }
  }

  lemma ScanOne(sc: Scan, c: char)
    ensures ScanAll(sc, [c]) == Step(sc, c)
  {
    assert [c][1..] == "";
  }

  lemma ScanThree(sc: Scan, a: char, b: char, c: char)
    ensures ScanAll(sc, [a, b, c]) == Step(Step(Step(sc, a), b), c)
  {
    assert [a, b, c][1..] == [b, c] && [b, c][1..] == [c] && [c][1..] == "";
    assert ScanAll(Step(sc, a), [b, c]) == ScanAll(Step(Step(sc, a), b), [c]);
  }

  lemma ScanQuoted(sc: Scan, c: char)
    requires IsNeutral(sc)
    ensures ScanAll(sc, QuoteChar(c)) == sc.(current := sc.current + [c])
  {
    if c == '\'' {
      assert QuoteChar(c) == ['"', '\'', '"'];
      ScanThree(sc, '"', c, '"');
    } else {
      ScanThree(sc, '\'', c, '\'');
    }
  }

  lemma {:induction false} ScanToken(sc: Scan, t: string)
    requires IsNeutral(sc)
    ensures ScanAll(sc, QuoteToken(t)) == sc.(current := sc.current + t)
  {
    if t == "" {
      assert sc.current + t == sc.current;
    } else {
      var front, last := t[..|t| - 1], t[|t| - 1];
      ScanToken(sc, front);
      ScanConcat(sc, QuoteToken(front), QuoteChar(last));
      ScanQuoted(sc.(current := sc.current + front), last);
      Assoc(sc.current, front, [last]);
      assert t == front + [last];
    }
  }

  lemma NextToken(ts: seq<string>, current: string, line: string, t: string)
    requires ScanAll(START, line) == Scan(ts, current, false, false) && current != ""
    ensures ScanAll(START, (line + " ") + QuoteToken(t)) == Scan(ts + [current], t, false, false)
  {
    ScanConcat(START, line + " ", QuoteToken(t));
    ScanConcat(START, line, " ");
    ScanOne(Scan(ts, current, false, false), ' ');
    ScanToken(Scan(ts + [current], "", false, false), t);
    assert "" + t == t;
  }

  lemma {:induction false} ScanLine(ts: seq<string>)
    requires ts != [] && Proper(ts)
    ensures ScanAll(START, Line(ts)) == Scan(ts[..|ts| - 1], ts[|ts| - 1], false, false)
  {
    var front, last := ts[..|ts| - 1], ts[|ts| - 1];
    if |ts| == 1 {
      ScanToken(START, last);
      assert "" + last == last && front == [];
    } else {
      ScanLine(front);
      NextToken(front[..|front| - 1], front[|front| - 1], Line(front), last);
      LastBehindFront(front);
    }
  }

  ghost predicate Avoids(s: string, rejected: seq<char>) {
    forall i :: 0 <= i < |s| ==> s[i] !in rejected
  }

  ghost predicate AllAvoid(ts: seq<string>, rejected: seq<char>) {
    forall i :: 0 <= i < |ts| ==> Avoids(ts[i], rejected)
  }

  lemma QuoteTokenAvoids(t: string, rejected: seq<char>)
    requires Avoids(t, rejected) && '\'' !in rejected && '"' !in rejected
    ensures Avoids(QuoteToken(t), rejected)
    ensures t != "" ==> EdgesAreQuotes(QuoteToken(t))
  {
    if t != "" {
      var front := t[..|t| - 1];
      QuoteTokenAvoids(front, rejected);
      QuoteCharAvoids(t[|t| - 1], rejected);
    }
  }

  lemma QuoteCharAvoids(c: char, rejected: seq<char>)
    requires c !in rejected && '\'' !in rejected && '"' !in rejected
    ensures Avoids(QuoteChar(c), rejected) && EdgesAreQuotes(QuoteChar(c))
  {
    assert c == '\'' ==> QuoteChar(c) == ['"', '\'', '"'];
  }

  ghost predicate EdgesAreQuotes(s: string) {
    s != "" && (s[0] == '\'' || s[0] == '"') && (s[|s| - 1] == '\'' || s[|s| - 1] == '"')
  }

  lemma {:induction false} LineAvoids(ts: seq<string>, rejected: seq<char>)
    requires ts != [] && Proper(ts) && AllAvoid(ts, rejected)
    requires '\'' !in rejected && '"' !in rejected && ' ' !in rejected
    ensures Avoids(Line(ts), rejected) && EdgesAreQuotes(Line(ts))
  {
    QuoteTokenAvoids(ts[|ts| - 1], rejected);
    if |ts| > 1 {
      LineAvoids(ts[..|ts| - 1], rejected);
    }
  }

  /** A list of tokens has a line exactly if it is not empty, no token is empty and no token
      contains a refused character. */
  lemma RepresentableIff(ts: seq<string>, rejected: seq<char>)
    requires '\'' !in rejected && '"' !in rejected && ' ' !in rejected
    ensures (exists line :: Tokenized(line, rejected) == Tokens(ts))
            <==> ts != [] && Proper(ts) && AllAvoid(ts, rejected)
    ensures ts != [] && Proper(ts) && AllAvoid(ts, rejected)
            ==> Tokenized(Line(ts), rejected) == Tokens(ts)
  {
    if ts != [] && Proper(ts) && AllAvoid(ts, rejected) {
      LineIsRead(ts, rejected);
    }
    forall line | Tokenized(line, rejected) == Tokens(ts)
      ensures ts != [] && Proper(ts) && AllAvoid(ts, rejected)
    {
      TokensAreTheLine(line, rejected);
      KeptAvoids(Trim(line), Neither, rejected);
      FlatAvoids(ts, rejected);
    }
  }

  lemma LineIsRead(ts: seq<string>, rejected: seq<char>)
    requires '\'' !in rejected && '"' !in rejected && ' ' !in rejected
    requires ts != [] && Proper(ts) && AllAvoid(ts, rejected)
    ensures Tokenized(Line(ts), rejected) == Tokens(ts)
  {
    LineAvoids(ts, rejected);
    ScanLine(ts);
    LastBehindFront(ts);
    ReadUntrimmed(Line(ts), rejected);
  }

  lemma ReadUntrimmed(line: string, rejected: seq<char>)
    requires EdgesAreQuotes(line) && Avoids(line, rejected)
    ensures Tokenized(line, rejected) == Verdict(ScanAll(START, line))
  {
    TrimSkips("", line, "");
    assert "" + line + "" == line;
    RejectedIff(line, rejected);
  }

  lemma KeptAvoids(s: string, open: Open, rejected: seq<char>)
    requires forall c :: c in rejected ==> c !in s
    ensures Avoids(Kept(s, open), rejected)
  {
    if s != "" {
      assert s[0] in s;
      assert forall c :: c in s[1..] ==> c in s;
      KeptAvoids(s[1..], Neither, rejected);
      KeptAvoids(s[1..], Single, rejected);
      KeptAvoids(s[1..], Double, rejected);
    }
  }

  lemma FlatAvoids(ts: seq<string>, rejected: seq<char>)
    requires Avoids(Flat(ts), rejected)
    ensures AllAvoid(ts, rejected)
  {
    if ts != [] {
      var front, last := ts[..|ts| - 1], ts[|ts| - 1];
      ConcatAvoids(Flat(front), last, rejected);
      FlatAvoids(front, rejected);
      assert ts == front + [last];
    }
  }

  lemma ConcatAvoids(a: string, b: string, rejected: seq<char>)
    requires Avoids(a + b, rejected)
    ensures Avoids(a, rejected) && Avoids(b, rejected)
  {
    forall i | 0 <= i < |a| ensures a[i] !in rejected {
      assert (a + b)[i] == a[i];
    }
    forall i | 0 <= i < |b| ensures b[i] !in rejected {
      assert (a + b)[|a| + i] == b[i];
    }
  }

  /** The console's own list. */
  lemma ConsoleTokens(ts: seq<string>)
    ensures (exists line :: Tokenized(line, REJECTED) == Tokens(ts))
            <==> ts != [] && Proper(ts) && AllAvoid(ts, [';', '|', '&', '`', '$', '(', ')', '<', '>', '\n', '\r'])
  {
    RepresentableIff(ts, REJECTED);
  }

  /** What the user is told of a line that is refused: the first of the refused characters that it
      contains; else of an open quote; else that there is nothing in it. */
  lemma RefusedAs(line: string, rejected: seq<char>)
    ensures var trimmed := Trim(line);
            match Tokenized(line, rejected)
            case NotAllowed(c) => exists i: nat :: IsFirstRefused(trimmed, rejected, i) && c == rejected[i]
            case Unclosed => (forall c :: c in rejected ==> c !in trimmed) && OpenAfter(trimmed, Neither) != Neither
            case Empty =>
              && (forall c :: c in rejected ==> c !in trimmed || trimmed == "")
              && OpenAfter(trimmed, Neither) == Neither && Kept(trimmed, Neither) == ""
            case Tokens(_) => true
  {
    var trimmed := Trim(line);
    FirstIsRefused(trimmed, rejected);
    RejectedIff(trimmed, rejected);
    ScanKeeps(START, trimmed);
    assert (Flat(START.tokens) + START.current) + Kept(trimmed, Neither) == Kept(trimmed, Neither);
    VerdictMeans(ScanAll(START, trimmed), Kept(trimmed, Neither));
  }

  ghost predicate IsFirstRefused(line: string, rejected: seq<char>, i: nat) {
    i < |rejected| && rejected[i] in line && forall k :: 0 <= k < i ==> rejected[k] !in line
  }

  lemma {:induction false} FirstIsRefused(line: string, rejected: seq<char>)
    ensures FirstRejected(line, rejected).Some? ==>
              exists i: nat :: IsFirstRefused(line, rejected, i) && FirstRejected(line, rejected).value == rejected[i]
  {
    if rejected != [] {
      if rejected[0] in line {
        assert IsFirstRefused(line, rejected, 0);
      } else {
        FirstIsRefused(line, rejected[1..]);
        if FirstRejected(line, rejected).Some? {
          var i: nat :| IsFirstRefused(line, rejected[1..], i) && FirstRejected(line, rejected[1..]).value == rejected[1..][i];
          assert forall k :: 0 < k < |rejected| ==> rejected[1..][k - 1] == rejected[k];
          assert IsFirstRefused(line, rejected, i + 1);
        }
      }
    }
  }

  /** Unquoted whitespace separates: the tokens of two balanced lines side by side are those of
      the first followed by those of the second. */
  lemma TokensOfConcat(a: string, w: char, b: string)
    requires IsWhitespace(w) && OpenAfter(a, Neither) == Neither
    ensures EndToken(ScanAll(START, (a + [w]) + b)).tokens
         == EndToken(ScanAll(START, a)).tokens + EndToken(ScanAll(START, b)).tokens
  {
    ScanKeeps(START, a);
    ScanConcat(START, a, [w] + b);
    Assoc(a, [w], b);
    AfterSeparator(ScanAll(START, a), w, b);
  }

  lemma AfterSeparator(sc: Scan, w: char, b: string)
    requires IsNeutral(sc) && IsWhitespace(w)
    ensures EndToken(ScanAll(sc, [w] + b)).tokens == EndToken(sc).tokens + EndToken(ScanAll(START, b)).tokens
  {
    assert ([w] + b)[1..] == b;
    var ts, end := EndToken(sc).tokens, ScanAll(START, b);
    EarlierTokens(ts, START, b);
    assert ts + [] == ts;
    Assoc(ts, end.tokens, [end.current]);
  }

  lemma {:induction false} EarlierTokens(ts: seq<string>, sc: Scan, s: string)
    ensures ScanAll(sc.(tokens := ts + sc.tokens), s) == ScanAll(sc, s).(tokens := ts + ScanAll(sc, s).tokens)
    decreases |s|
  {
    if s != "" {
      Assoc(ts, sc.tokens, [sc.current]);
      EarlierTokens(ts, Step(sc, s[0]), s[1..]);
    }
  }
}
