/** What the log shows of the commands that the agent builds from quoted values, whatever the
    values contain. */
module CommandLog {
  import opened Text
  import opened Redact
  import opened RedactPieces
  import opened Shell

  // ---------------------------------------------------------------------------------------
  // Quoted values
  // ---------------------------------------------------------------------------------------

  /** Between two pieces of a value its quoted form has a backslash and an empty piece. */
  function ValuePieces(segs: seq<string>): (r: seq<string>)
    requires segs != []
    ensures |r| == 3 * |segs| - 2 && r[0] == segs[0]
  {
    if |segs| == 1 then segs else [segs[0], "\\", ""] + ValuePieces(segs[1..])
  }

  function QuotedPieces(v: string): seq<string> {
    ValuePieces(SplitQuotes(v))
  }

  lemma {:induction false} JoinConcat(a: seq<string>, b: seq<string>)
    requires a != [] && b != []
    ensures JoinQuotes(a + b) == JoinQuotes(a) + "'" + JoinQuotes(b)
  {
    if |a| == 1 {
      assert (a + b)[1..] == b;
    } else {
      JoinConcat(a[1..], b);
      assert (a + b)[1..] == a[1..] + b;
      Regroup(a[0] + "'", JoinQuotes(a[1..]), "'", JoinQuotes(b));
    }
  }

  lemma JoinLongerFirst(x: string, ps: seq<string>)
    requires ps != []
    ensures JoinQuotes([x + ps[0]] + ps[1..]) == x + JoinQuotes(ps)
  {
    var qs := [x + ps[0]] + ps[1..];
    assert qs[1..] == ps[1..];
    if |ps| > 1 {
      Regroup(x, ps[0], "'", JoinQuotes(ps[1..]));
    }
  }

  lemma LongerFirstPiece(x: string, segs: seq<string>)
    requires segs != []
    ensures ValuePieces([x + segs[0]] + segs[1..]) == [x + segs[0]] + ValuePieces(segs)[1..]
  {
    var longer := [x + segs[0]] + segs[1..];
    assert longer[1..] == segs[1..];
    if |segs| > 1 {
      FirstOfThree(segs[0], "\\", "", ValuePieces(segs[1..]));
      FirstOfThree(x + segs[0], "\\", "", ValuePieces(segs[1..]));
    }
  }

  lemma FirstOfThree<T>(a: T, b: T, c: T, r: seq<T>)
    ensures [a, b, c] + r == [a] + ([b, c] + r) && ([a, b, c] + r)[1..] == [b, c] + r
  {
  }

  lemma EscapedQuote(ps: seq<string>)
    requires ps != []
    ensures JoinQuotes(["", "\\", ""] + ps) == "'\\''" + JoinQuotes(ps)
  {
    assert ["", "\\", ""][1..] == ["\\", ""] && ["\\", ""][1..] == [""];
    assert JoinQuotes(["\\", ""]) == "\\'";
    assert JoinQuotes(["", "\\", ""]) == "'\\'";
    JoinConcat(["", "\\", ""], ps);
    assert "'\\'" + "'" == "'\\''";
  }

  lemma {:induction false} QuotedIsJoined(v: string)
    ensures JoinQuotes(QuotedPieces(v)) == ReplaceQuotes(v)
  {
    if v != "" {
      var rest := SplitQuotes(v[1..]);
      QuotedIsJoined(v[1..]);
      if v[0] == '\'' {
        assert SplitQuotes(v)[1..] == rest;
        EscapedQuote(ValuePieces(rest));
      } else {
        LongerFirstPiece([v[0]], rest);
        JoinLongerFirst([v[0]], ValuePieces(rest));
      }
    }
  }

  lemma {:induction false} ValueIsQuoteFree(segs: seq<string>)
    requires segs != [] && AllQuoteFree(segs)
    ensures AllQuoteFree(ValuePieces(segs))
  {
    if |segs| > 1 {
      ValueIsQuoteFree(segs[1..]);
    }
  }

  // ---------------------------------------------------------------------------------------
  // What is left of a quoted value
  // ---------------------------------------------------------------------------------------

  ghost predicate StemsOk(ms: seq<string>) {
    AreMarkers(ms) && !EndsInStem("", ms) && !EndsInStem("\\", ms) && !EndsInStem("***", ms)
  }

  lemma StarsOfThree(x: string, hidden: bool, ms: seq<string>)
    requires StemsOk(ms)
    ensures StarsFrom([x, "\\", ""], hidden, ms)
         == [if hidden then "***" else x, if !hidden && EndsInStem(x, ms) then "***" else "\\", ""]
    ensures !HiddenBehind([x, "\\", ""], hidden, ms)
  {
    var next := !hidden && EndsInStem(x, ms);
    assert [x, "\\", ""][1..] == ["\\", ""] && ["\\", ""][1..] == [""] && [""][1..] == [];
    assert StarsFrom([""], false, ms) == [""];
    assert StarsFrom(["\\", ""], next, ms) == [if next then "***" else "\\"] + [""];
    assert !HiddenBehind([""], false, ms);
    assert !HiddenBehind(["\\", ""], next, ms);
  }

  lemma StarsOfValue(segs: seq<string>, hidden: bool, ms: seq<string>)
    requires StemsOk(ms) && |segs| > 1
    ensures StarsFrom(ValuePieces(segs), hidden, ms)
         == [if hidden then "***" else segs[0], if !hidden && EndsInStem(segs[0], ms) then "***" else "\\", ""]
            + StarsFrom(ValuePieces(segs[1..]), false, ms)
    ensures HiddenBehind(ValuePieces(segs), hidden, ms) == HiddenBehind(ValuePieces(segs[1..]), false, ms)
  {
    StarsConcat([segs[0], "\\", ""], ValuePieces(segs[1..]), hidden, ms);
    StarsOfThree(segs[0], hidden, ms);
  }

  lemma StarsOfOne(x: string, hidden: bool, ms: seq<string>)
    ensures StarsFrom([x], hidden, ms) == [if hidden then "***" else x]
    ensures HiddenBehind([x], hidden, ms) == (!hidden && EndsInStem(x, ms))
  {
    assert [x][1..] == [];
  }

  lemma OneSegment(segs: seq<string>)
    requires |segs| == 1
    ensures segs == [segs[0]] && ValuePieces(segs) == [segs[0]] && segs[1..] == []
  {
  }

  /** A value whose first piece is shown is shown: all of its pieces can be read. */
  lemma {:induction false} ShownIsReadable(a: seq<string>, b: seq<string>, ms: seq<string>)
    requires StemsOk(ms) && a != [] && b != []
    requires StarsFrom(ValuePieces(a), false, ms) == StarsFrom(ValuePieces(b), false, ms)
    ensures a == b
  {
    assert |a| == |b|;
    if |a| == 1 {
      OneSegment(a);
      OneSegment(b);
      StarsOfOne(a[0], false, ms);
      StarsOfOne(b[0], false, ms);
    } else {
      StarsOfValue(a, false, ms);
      StarsOfValue(b, false, ms);
      var x, y := StarsFrom(ValuePieces(a), false, ms), StarsFrom(ValuePieces(b), false, ms);
      assert x[0] == a[0] && y[0] == b[0];
      assert x[3..] == StarsFrom(ValuePieces(a[1..]), false, ms) && y[3..] == StarsFrom(ValuePieces(b[1..]), false, ms);
      ShownIsReadable(a[1..], b[1..], ms);
      assert a == [a[0]] + a[1..] && b == [b[0]] + b[1..];
    }
  }

  /** Of a value whose first piece is hidden the others are shown. */
  lemma {:induction false} HiddenShowsTheRest(a: seq<string>, b: seq<string>, ms: seq<string>)
    requires StemsOk(ms) && a != [] && b != []
    ensures StarsFrom(ValuePieces(a), true, ms) == StarsFrom(ValuePieces(b), true, ms) <==> a[1..] == b[1..]
    ensures a[1..] == b[1..] ==> HiddenBehind(ValuePieces(a), true, ms) == HiddenBehind(ValuePieces(b), true, ms)
  {
    if |a| != |b| {
      assert |a[1..]| != |b[1..]|;
    } else if |a| == 1 {
      OneSegment(a);
      OneSegment(b);
      StarsOfOne(a[0], true, ms);
      StarsOfOne(b[0], true, ms);
    } else {
      StarsOfValue(a, true, ms);
      StarsOfValue(b, true, ms);
      var x, y := StarsFrom(ValuePieces(a), true, ms), StarsFrom(ValuePieces(b), true, ms);
      assert x[3..] == StarsFrom(ValuePieces(a[1..]), false, ms) && y[3..] == StarsFrom(ValuePieces(b[1..]), false, ms);
      if x == y {
        ShownIsReadable(a[1..], b[1..], ms);
      }
    }
  }

  lemma {:induction false} BehindValue(segs: seq<string>, ms: seq<string>)
    requires StemsOk(ms) && segs != []
    ensures HiddenBehind(ValuePieces(segs), false, ms) == EndsInStem(segs[|segs| - 1], ms)
  {
    if |segs| == 1 {
      OneSegment(segs);
      StarsOfOne(segs[0], false, ms);
    } else {
      StarsOfValue(segs, false, ms);
      BehindValue(segs[1..], ms);
    }
  }

  lemma StemBehindQuote(x: string, last: string, m: string)
    requires IsMarker(m)
    ensures IsStemOf(m, x + "'" + last) <==> IsStemOf(m, last)
  {
    var v := x + "'" + last;
    if |m| <= |last| + 1 {
      assert v[|v| + 1 - |m|..] == last[|last| + 1 - |m|..];
    } else if |m| <= |v| + 1 {
      var at := |x| - (|v| + 1 - |m|);
      assert v[|v| + 1 - |m|..][at] == '\'' && m[..|m| - 1][at] != '\'';
    }
  }

  /** A marker has no quote in front of its end, so only the last piece of a value counts. */
  lemma StemOfLast(v: string, ms: seq<string>)
    requires AreMarkers(ms)
    ensures var segs := SplitQuotes(v); EndsInStem(v, ms) <==> EndsInStem(segs[|segs| - 1], ms)
  {
    var segs := SplitQuotes(v);
    SplitIsExact(v);
    if |segs| > 1 {
      var front, last := segs[..|segs| - 1], segs[|segs| - 1];
      JoinConcat(front, [last]);
      assert front + [last] == segs;
      forall m | m in ms
        ensures IsStemOf(m, v) <==> IsStemOf(m, last)
      {
        StemBehindQuote(JoinQuotes(front), last, m);
      }
    }
  }

  // ---------------------------------------------------------------------------------------
  // Commands as plain text and quoted values in turn
  // ---------------------------------------------------------------------------------------

  datatype Part = Part(plain: string, value: string)

  function PartsText(parts: seq<Part>): string {
    if parts == [] then "" else parts[0].plain + ShellQuote(parts[0].value) + PartsText(parts[1..])
  }

  function PartPieces(p: Part): seq<string> {
    [p.plain] + QuotedPieces(p.value)
  }

  function Flat(parts: seq<Part>): seq<string> {
    if parts == [] then [] else PartPieces(parts[0]) + Flat(parts[1..])
  }

  /** The last value is followed by the empty piece. */
  function Pieces(parts: seq<Part>): (r: seq<string>)
    ensures r != []
  {
    Flat(parts) + [""]
  }

  ghost predicate PlainsQuoteFree(parts: seq<Part>) {
    forall i :: 0 <= i < |parts| ==> QuoteFree(parts[i].plain)
  }

  lemma {:induction false} PiecesAreTheText(parts: seq<Part>)
    requires PlainsQuoteFree(parts)
    ensures JoinQuotes(Pieces(parts)) == PartsText(parts) && AllQuoteFree(Pieces(parts))
  {
    if parts != [] {
      var p := parts[0];
      PiecesAreTheText(parts[1..]);
      SplitIsExact(p.value);
      ValueIsQuoteFree(SplitQuotes(p.value));
      QuotedIsJoined(p.value);
      JoinConcat(QuotedPieces(p.value), Pieces(parts[1..]));
      JoinConcat([p.plain], QuotedPieces(p.value) + Pieces(parts[1..]));
      Assoc(PartPieces(p), Flat(parts[1..]), [""]);
      Assoc([p.plain], QuotedPieces(p.value), Pieces(parts[1..]));
      QuotesAround(p.plain, ReplaceQuotes(p.value), PartsText(parts[1..]));
    }
  }

  lemma QuotesAround(plain: string, v: string, rest: string)
    ensures plain + "'" + (v + "'" + rest) == plain + ("'" + v + "'") + rest
  {
  }

  lemma {:induction false} FlatConcat(a: seq<Part>, b: seq<Part>)
    ensures Flat(a + b) == Flat(a) + Flat(b)
  {
    if a == [] {
      assert a + b == b;
    } else {
      FlatConcat(a[1..], b);
      assert (a + b)[1..] == a[1..] + b;
      Assoc(PartPieces(a[0]), Flat(a[1..]), Flat(b));
    }
  }

  lemma SameLengthConcat<T>(a: seq<T>, b: seq<T>, c: seq<T>, d: seq<T>)
    requires |a| == |c|
    ensures a + b == c + d <==> a == c && b == d
  {
    if a + b == c + d {
      assert (a + b)[..|a|] == a && (c + d)[..|a|] == c;
      assert (a + b)[|a|..] == b && (c + d)[|a|..] == d;
    }
  }

  lemma SameEnds<T>(front: seq<T>, a: seq<T>, b: seq<T>, back: seq<T>)
    ensures front + a + back == front + b + back <==> a == b
  {
    if front + a + back == front + b + back {
      assert |a| == |b|;
      assert (front + a + back)[|front|..|front| + |a|] == a && (front + b + back)[|front|..|front| + |b|] == b;
    }
  }

  // ---------------------------------------------------------------------------------------
  // What the log tells of one secret
  // ---------------------------------------------------------------------------------------

  /** The last value ends like a marker, so that its closing quote opens a secret. */
  predicate Opens(pre: seq<Part>, ms: seq<string>) {
    pre != [] && EndsInStem(pre[|pre| - 1].value, ms)
  }

  /** Alike from their first quotes on. */
  predicate SameBehindQuote(p: string, q: string) {
    SplitQuotes(p)[1..] == SplitQuotes(q)[1..]
  }

  lemma BehindPart(front: seq<string>, p: Part, ms: seq<string>)
    requires StemsOk(ms) && !EndsInStem(p.plain, ms)
    ensures HiddenBehind(front + PartPieces(p), false, ms) == EndsInStem(p.value, ms)
  {
    var before := HiddenBehind(front, false, ms);
    StarsConcat(front, PartPieces(p), false, ms);
    StarsConcat([p.plain], QuotedPieces(p.value), before, ms);
    StarsOfOne(p.plain, before, ms);
    BehindValue(SplitQuotes(p.value), ms);
    StemOfLast(p.value, ms);
  }

  lemma BehindParts(pre: seq<Part>, ms: seq<string>)
    requires StemsOk(ms) && (pre == [] || !EndsInStem(pre[|pre| - 1].plain, ms))
    ensures HiddenBehind(Flat(pre), false, ms) == Opens(pre, ms)
  {
    if pre != [] {
      var front, p := pre[..|pre| - 1], pre[|pre| - 1];
      LastBehindFront(pre);
      FlatConcat(front, [p]);
      assert [p][1..] == [] && Flat([p]) == PartPieces(p);
      BehindPart(Flat(front), p, ms);
    }
  }

  /** The secret's pieces with the one behind them. */
  function SecretStars(v: string, hidden: bool, behind: string, ms: seq<string>): seq<string> {
    StarsFrom(QuotedPieces(v), hidden, ms) + [if HiddenBehind(QuotedPieces(v), hidden, ms) then "***" else behind]
  }

  lemma SecretStarsIff(p: string, q: string, hidden: bool, behind: string, ms: seq<string>)
    requires StemsOk(ms)
    ensures SecretStars(p, hidden, behind, ms) == SecretStars(q, hidden, behind, ms)
            <==> p == q || (hidden && SameBehindQuote(p, q))
  {
    var a, b := SplitQuotes(p), SplitQuotes(q);
    var x, y := StarsFrom(ValuePieces(a), hidden, ms), StarsFrom(ValuePieces(b), hidden, ms);
    SplitIsExact(p);
    SplitIsExact(q);
    if SecretStars(p, hidden, behind, ms) == SecretStars(q, hidden, behind, ms) {
      assert SecretStars(p, hidden, behind, ms)[..|x|] == x && SecretStars(q, hidden, behind, ms)[..|y|] == y;
      assert |x| == |y|;
      if !hidden {
        ShownIsReadable(a, b, ms);
      }
    }
    HiddenShowsTheRest(a, b, ms);
  }

  /** The pieces of the whole command: those in front of the secret and those behind do not
      depend on it, but for the one right behind. */
  lemma StarsAroundSecret(front: seq<string>, plain: string, v: string, tail: seq<string>, ms: seq<string>)
    requires EndsInStem(plain, ms) && tail != [] && !EndsInStem(tail[0], ms)
    ensures var open := HiddenBehind(front, false, ms);
            StarsFrom(front + ([plain] + QuotedPieces(v)) + tail, false, ms)
            == (StarsFrom(front, false, ms) + [if open then "***" else plain])
               + SecretStars(v, !open, tail[0], ms)
               + StarsFrom(tail[1..], false, ms)
  {
    var open := HiddenBehind(front, false, ms);
    var value := QuotedPieces(v);
    var n := HiddenBehind(value, !open, ms);
    StarsConcat(front + ([plain] + value), tail, false, ms);
    StarsConcat(front, [plain] + value, false, ms);
    StarsConcat([plain], value, open, ms);
    StarsOfOne(plain, open, ms);
    assert StarsFrom(tail, n, ms) == [if n then "***" else tail[0]] + StarsFrom(tail[1..], false, ms);
    RegroupFive(StarsFrom(front, false, ms), [if open then "***" else plain], StarsFrom(value, !open, ms),
                [if n then "***" else tail[0]], StarsFrom(tail[1..], false, ms));
  }

  lemma RegroupFive<T>(a: seq<T>, b: seq<T>, c: seq<T>, d: seq<T>, e: seq<T>)
    ensures a + (b + c) + (d + e) == (a + b) + (c + d) + e
  {
  }

  lemma PiecesAround(pre: seq<Part>, p: Part, post: seq<Part>)
    ensures Pieces(pre + [p] + post) == Flat(pre) + PartPieces(p) + Pieces(post)
  {
    FlatConcat(pre + [p], post);
    FlatConcat(pre, [p]);
    assert [p][1..] == [] && Flat([p]) == PartPieces(p);
    Assoc(Flat(pre) + PartPieces(p), Flat(post), [""]);
  }

  function StarsInFront(pre: seq<Part>, plain: string, ms: seq<string>): seq<string> {
    StarsFrom(Flat(pre), false, ms) + [if Opens(pre, ms) then "***" else plain]
  }

  lemma StarsOfSecret(pre: seq<Part>, plain: string, post: seq<Part>, v: string, ms: seq<string>)
    requires StemsOk(ms) && EndsInStem(plain, ms)
    requires pre == [] || !EndsInStem(pre[|pre| - 1].plain, ms)
    requires post == [] || !EndsInStem(post[0].plain, ms)
    ensures StarsFrom(Pieces(pre + [Part(plain, v)] + post), false, ms)
         == StarsInFront(pre, plain, ms) + SecretStars(v, !Opens(pre, ms), Pieces(post)[0], ms)
            + StarsFrom(Pieces(post)[1..], false, ms)
  {
    assert Pieces(post)[0] == if post == [] then "" else post[0].plain;
    PiecesAround(pre, Part(plain, v), post);
    BehindParts(pre, ms);
    StarsAroundSecret(Flat(pre), plain, v, Pieces(post), ms);
  }

  /** For any values: a secret behind its marker is kept out of the log exactly up to its first
      quote, and exactly if the value in front of the marker does not end like a marker itself. */
  lemma MaskHidesSecretIff(pre: seq<Part>, plain: string, post: seq<Part>, p: string, q: string, ms: seq<string>)
    requires StemsOk(ms) && PlainsQuoteFree(pre) && PlainsQuoteFree(post) && QuoteFree(plain)
    requires pre == [] || !EndsInStem(pre[|pre| - 1].plain, ms)
    requires EndsInStem(plain, ms) && (post == [] || !EndsInStem(post[0].plain, ms))
    ensures Mask(PartsText(pre + [Part(plain, p)] + post), ms) == Mask(PartsText(pre + [Part(plain, q)] + post), ms)
            <==> p == q || (!Opens(pre, ms) && SameBehindQuote(p, q))
  {
    var a, b := pre + [Part(plain, p)] + post, pre + [Part(plain, q)] + post;
    PiecesAreTheText(a);
    PiecesAreTheText(b);
    MaskedAlikeIff(Pieces(a), Pieces(b), ms);
    StarsOfSecret(pre, plain, post, p, ms);
    StarsOfSecret(pre, plain, post, q, ms);
    SameEnds(StarsInFront(pre, plain, ms), SecretStars(p, !Opens(pre, ms), Pieces(post)[0], ms),
             SecretStars(q, !Opens(pre, ms), Pieces(post)[0], ms), StarsFrom(Pieces(post)[1..], false, ms));
    SecretStarsIff(p, q, !Opens(pre, ms), Pieces(post)[0], ms);
  }

  // ---------------------------------------------------------------------------------------
  // When the log shows the whole command with its secrets replaced
  // ---------------------------------------------------------------------------------------

  function HidePart(p: Part, ms: seq<string>): Part {
    if EndsInStem(p.plain, ms) then p.(value := "***") else p
  }

  function HideParts(parts: seq<Part>, ms: seq<string>): (r: seq<Part>)
    ensures |r| == |parts| && forall i :: 0 <= i < |parts| ==> r[i] == HidePart(parts[i], ms)
  {
    seq(|parts|, i requires 0 <= i < |parts| => HidePart(parts[i], ms))
  }

  /** No piece of the value ends like a marker. */
  ghost predicate IsShown(v: string, ms: seq<string>) {
    forall i :: 0 <= i < |SplitQuotes(v)| ==> !EndsInStem(SplitQuotes(v)[i], ms)
  }

  ghost predicate IsClear(p: Part, ms: seq<string>) {
    if EndsInStem(p.plain, ms) then QuoteFree(p.value) else IsShown(p.value, ms)
  }

  ghost predicate AllClear(parts: seq<Part>, ms: seq<string>) {
    forall i :: 0 <= i < |parts| ==> IsClear(parts[i], ms)
  }

  ghost predicate PlainsOk(parts: seq<Part>) {
    forall i :: 0 <= i < |parts| ==> QuoteFree(parts[i].plain) && parts[i].plain != "***"
  }

  lemma {:induction false} ValueShownIff(segs: seq<string>, ms: seq<string>)
    requires StemsOk(ms) && segs != []
    ensures StarsFrom(ValuePieces(segs), false, ms) == ValuePieces(segs) && !HiddenBehind(ValuePieces(segs), false, ms)
            <==> forall i :: 0 <= i < |segs| ==> !EndsInStem(segs[i], ms)
  {
    if |segs| == 1 {
      OneSegment(segs);
      StarsOfOne(segs[0], false, ms);
    } else {
      var rest := segs[1..];
      StarsOfValue(segs, false, ms);
      ValueShownIff(rest, ms);
      var stars := if EndsInStem(segs[0], ms) then "***" else "\\";
      SameLengthConcat([segs[0], stars, ""], StarsFrom(ValuePieces(rest), false, ms), [segs[0], "\\", ""], ValuePieces(rest));
      assert [segs[0], stars, ""][1] == stars && [segs[0], "\\", ""][1] == "\\";
      assert forall i :: 0 <= i < |rest| ==> rest[i] == segs[i + 1];
      assert forall i :: 0 < i < |segs| ==> segs[i] == rest[i - 1];
    }
  }

  lemma {:induction false} HidingShortens(parts: seq<Part>, ms: seq<string>)
    ensures |Flat(HideParts(parts, ms))| <= |Flat(parts)|
  {
    if parts != [] {
      HidingShortens(parts[1..], ms);
      assert HideParts(parts, ms)[1..] == HideParts(parts[1..], ms);
      SplitFront("***", "");
    }
  }

  /** One part and what is behind it, when the plain text is shown. */
  lemma StarsOfPart(p: Part, rest: seq<string>, ms: seq<string>)
    requires EndsInStem(p.plain, ms) ==> QuoteFree(p.value)
    ensures var behind := HiddenBehind(QuotedPieces(p.value), EndsInStem(p.plain, ms), ms);
            StarsFrom(PartPieces(p) + rest, false, ms)
            == [p.plain] + (StarsFrom(QuotedPieces(p.value), EndsInStem(p.plain, ms), ms) + StarsFrom(rest, behind, ms))
  {
    var value := QuotedPieces(p.value);
    StarsConcat([p.plain], value, false, ms);
    StarsConcat(PartPieces(p), rest, false, ms);
    StarsOfOne(p.plain, false, ms);
  }

  lemma SecretStarred(v: string, ms: seq<string>)
    requires QuoteFree(v)
    ensures StarsFrom(QuotedPieces(v), true, ms) == QuotedPieces("***") && !HiddenBehind(QuotedPieces(v), true, ms)
  {
    SplitFront(v, "");
    SplitFront("***", "");
    StarsOfOne(v, true, ms);
  }

  lemma HiddenFirst(ps: seq<string>, ms: seq<string>)
    requires ps != []
    ensures StarsFrom(ps, true, ms)[0] == "***"
  {
  }

  /** For any values: the scanner leaves the command itself, with stars for the secrets, exactly
      if no secret has a quote and no piece of any other value ends like a marker. */
  lemma {:induction false} StarredIff(parts: seq<Part>, hidden: bool, ms: seq<string>)
    requires StemsOk(ms) && PlainsOk(parts)
    ensures StarsFrom(Pieces(parts), hidden, ms) == Pieces(HideParts(parts, ms)) <==> !hidden && AllClear(parts, ms)
  {
    if parts == [] {
      StarsOfOne("", hidden, ms);
      assert Pieces(parts) == [""] == Pieces(HideParts(parts, ms));
    } else {
      var p, rest := parts[0], parts[1..];
      assert HideParts(parts, ms)[1..] == HideParts(rest, ms);
      Assoc(PartPieces(p), Flat(rest), [""]);
      Assoc(PartPieces(HidePart(p, ms)), Flat(HideParts(rest, ms)), [""]);
      assert Pieces(HideParts(parts, ms))[0] == p.plain && Pieces(parts)[0] == p.plain;
      assert AllClear(parts, ms) <==> IsClear(p, ms) && AllClear(rest, ms) by {
        assert forall i :: 0 <= i < |rest| ==> rest[i] == parts[i + 1];
        assert forall i :: 0 < i < |parts| ==> parts[i] == rest[i - 1];
      }
      if hidden {
        HiddenFirst(Pieces(parts), ms);
      } else if EndsInStem(p.plain, ms) && !QuoteFree(p.value) {
        QuotedIsLonger(p, rest, ms);
      } else {
        StarsOfPart(p, Pieces(rest), ms);
        StarredIff(rest, HiddenBehind(QuotedPieces(p.value), EndsInStem(p.plain, ms), ms), ms);
        FirstPartStarred(p, rest, ms);
      }
    }
  }

  lemma QuotedIsLonger(p: Part, rest: seq<Part>, ms: seq<string>)
    requires EndsInStem(p.plain, ms) && !QuoteFree(p.value)
    ensures |PartPieces(p) + Pieces(rest)| > |PartPieces(HidePart(p, ms)) + Pieces(HideParts(rest, ms))|
  {
    HidingShortens(rest, ms);
    SplitFront("***", "");
    QuotedHasSegments(p.value);
  }

  lemma QuotedHasSegments(v: string)
    ensures QuoteFree(v) || |SplitQuotes(v)| > 1
  {
    SplitIsExact(v);
  }

  lemma {:induction false} FirstPartStarred(p: Part, rest: seq<Part>, ms: seq<string>)
    requires StemsOk(ms)
    requires EndsInStem(p.plain, ms) ==> QuoteFree(p.value)
    requires var behind := HiddenBehind(QuotedPieces(p.value), EndsInStem(p.plain, ms), ms);
             StarsFrom(Pieces(rest), behind, ms) == Pieces(HideParts(rest, ms)) <==> !behind && AllClear(rest, ms)
    ensures var behind := HiddenBehind(QuotedPieces(p.value), EndsInStem(p.plain, ms), ms);
            [p.plain] + (StarsFrom(QuotedPieces(p.value), EndsInStem(p.plain, ms), ms) + StarsFrom(Pieces(rest), behind, ms))
            == PartPieces(HidePart(p, ms)) + Pieces(HideParts(rest, ms))
            <==> IsClear(p, ms) && AllClear(rest, ms)
  {
    var value, stem := QuotedPieces(p.value), EndsInStem(p.plain, ms);
    var behind := HiddenBehind(value, stem, ms);
    var x, y := StarsFrom(value, stem, ms), StarsFrom(Pieces(rest), behind, ms);
    var x', y' := QuotedPieces(HidePart(p, ms).value), Pieces(HideParts(rest, ms));
    Assoc([p.plain], x', y');
    SameLengthConcat([p.plain], x + y, [p.plain], x' + y');
    if stem {
      SecretStarred(p.value, ms);
    } else {
      ValueShownIff(SplitQuotes(p.value), ms);
    }
    SameLengthConcat(x, y, x', y');
  }

  // ---------------------------------------------------------------------------------------
  // The two commands
  // ---------------------------------------------------------------------------------------

  function DumpWords(): Command {
    [Bare("mysqldump"), Bare("--single-transaction"), Bare("--quick"), Bare("--no-tablespaces")]
  }

  function HostParts(lead: string, src: DbLogin): seq<Part> {
    [Part(lead + "--host=", HostOnly(src.host))]
    + match Port(src.host) case Some(port) => [Part(" " + "--port=", port)] case None => []
  }

  function LoginParts(d: DbLogin): seq<Part> {
    [Part(" " + "--user=", d.user), Part(" " + "--password=", d.password), Part(" ", d.name)]
  }

  function CloneParts(src: DbLogin, dst: DbLogin): seq<Part> {
    HostParts(RenderCommand(DumpWords()) + " ", src) + LoginParts(src)
    + ([Part(" | mysql " + "--host=", dst.host)] + LoginParts(dst))
  }

  function RemoteParts(db: DbLogin, port: string): seq<Part> {
    [Part("mysqldump " + "--host=", db.host), Part(" " + "--port=", port), Part(" " + "--user=", db.user),
     Part(" " + "--password=", db.password), Part(" --single-transaction " + "--quick ", db.name)]
  }

  /** A flag or a value behind a space. */
  function PartOf(it: Item): Part
    requires !it.Bare?
  {
    match it
    case Opt(f, v) => Part(" " + f, v)
    case Value(v) => Part(" ", v)
  }

  function PartsOf(opts: seq<Item>): (r: seq<Part>)
    requires forall i :: 0 <= i < |opts| ==> !opts[i].Bare?
    ensures |r| == |opts| && forall i :: 0 <= i < |opts| ==> r[i] == PartOf(opts[i])
  {
    seq(|opts|, i requires 0 <= i < |opts| => PartOf(opts[i]))
  }

  lemma {:induction false} RenderOpts(c: Command, opts: seq<Item>)
    requires c != [] && forall i :: 0 <= i < |opts| ==> !opts[i].Bare?
    ensures RenderCommand(c + opts) == RenderCommand(c) + PartsText(PartsOf(opts))
    decreases |opts|
  {
    if opts == [] {
      assert c + opts == c;
    } else {
      var it, rest := opts[0], opts[1..];
      assert c + opts == (c + [it]) + rest;
      RenderOpts(c + [it], rest);
      RenderOneMore(c, it);
      PartsTextFirst(opts);
      Assoc(RenderCommand(c), PartOf(it).plain + ShellQuote(PartOf(it).value), PartsText(PartsOf(rest)));
    }
  }

  lemma PartsTextFirst(opts: seq<Item>)
    requires opts != [] && forall i :: 0 <= i < |opts| ==> !opts[i].Bare?
    ensures PartsText(PartsOf(opts))
         == PartOf(opts[0]).plain + ShellQuote(PartOf(opts[0]).value) + PartsText(PartsOf(opts[1..]))
  {
    assert PartsOf(opts)[1..] == PartsOf(opts[1..]);
  }

  lemma RenderOneMore(c: Command, it: Item)
    requires c != []
    ensures RenderCommand(c + [it]) == RenderCommand(c) + " " + RenderItem(it)
    ensures !it.Bare? ==>
              RenderCommand(c + [it]) == RenderCommand(c) + (PartOf(it).plain + ShellQuote(PartOf(it).value))
  {
    assert (c + [it])[..|c|] == c;
    match it {
      case Bare(_) =>
      case Opt(f, v) => SpaceInFront(RenderCommand(c), f, ShellQuote(v));
      case Value(v) => Assoc(RenderCommand(c), " ", ShellQuote(v));
    }
  }

  lemma SpaceInFront(a: string, f: string, v: string)
    ensures a + " " + (f + v) == a + (" " + f + v)
  {
  }

  lemma {:induction false} PartsTextConcat(a: seq<Part>, b: seq<Part>)
    ensures PartsText(a + b) == PartsText(a) + PartsText(b)
  {
    if a == [] {
      assert a + b == b;
    } else {
      PartsTextConcat(a[1..], b);
      assert (a + b)[1..] == a[1..] + b;
      Assoc(a[0].plain + ShellQuote(a[0].value), PartsText(a[1..]), PartsText(b));
    }
  }

  /** The first part takes the words in front of it. */
  lemma LongerFirstPart(lead: string, flag: string, v: string, rest: seq<Part>)
    ensures PartsText([Part(lead + " " + flag, v)] + rest) == lead + PartsText([Part(" " + flag, v)] + rest)
  {
    var a, b := [Part(lead + " " + flag, v)] + rest, [Part(" " + flag, v)] + rest;
    assert a[1..] == rest == b[1..];
    LeadInFront(lead, flag, ShellQuote(v), PartsText(rest));
  }

  lemma LeadInFront(lead: string, flag: string, v: string, rest: string)
    ensures lead + " " + flag + v + rest == lead + (" " + flag + v + rest)
  {
  }

  function DumpOpts(src: DbLogin): (r: seq<Item>)
    ensures forall i :: 0 <= i < |r| ==> !r[i].Bare?
  {
    [Opt("--host=", HostOnly(src.host))]
    + (match Port(src.host) case Some(port) => [Opt("--port=", port)] case None => [])
    + [Opt("--user=", src.user), Opt("--password=", src.password), Value(src.name)]
  }

  lemma DumpWordsAndOpts(src: DbLogin)
    ensures DumpItems(src) == DumpWords() + DumpOpts(src)
  {
  }

  lemma PartsOfDump(src: DbLogin, rest: seq<Part>)
    requires rest == HostParts("", src)[1..] + LoginParts(src)
    ensures PartsOf(DumpOpts(src)) == [Part(" " + "--host=", HostOnly(src.host))] + rest
  {
  }

  lemma DumpText(src: DbLogin)
    ensures RenderCommand(DumpItems(src)) == PartsText(HostParts(RenderCommand(DumpWords()) + " ", src) + LoginParts(src))
  {
    var words := RenderCommand(DumpWords());
    var rest := HostParts("", src)[1..] + LoginParts(src);
    DumpWordsAndOpts(src);
    RenderOpts(DumpWords(), DumpOpts(src));
    PartsOfDump(src, rest);
    LongerFirstPart(words, "--host=", HostOnly(src.host), rest);
    HostFirst(words + " ", src, rest);
  }

  lemma HostFirst(lead: string, src: DbLogin, rest: seq<Part>)
    requires rest == HostParts("", src)[1..] + LoginParts(src)
    ensures HostParts(lead, src) + LoginParts(src) == [Part(lead + "--host=", HostOnly(src.host))] + rest
  {
  }

  lemma LoadWords(dst: DbLogin)
    ensures RenderCommand(LoadItems(dst)) == "mysql" + PartsText([Part(" " + "--host=", dst.host)] + LoginParts(dst))
  {
    var words: Command := [Bare("mysql")];
    var opts := LoadItems(dst)[1..];
    assert LoadItems(dst) == words + opts;
    RenderOpts(words, opts);
    assert RenderCommand(words) == "mysql";
    assert PartsOf(opts) == [Part(" " + "--host=", dst.host)] + LoginParts(dst);
  }

  lemma LoadText(dst: DbLogin)
    ensures " | " + RenderCommand(LoadItems(dst)) == PartsText([Part(" | mysql " + "--host=", dst.host)] + LoginParts(dst))
  {
    var rest := PartsText([Part(" " + "--host=", dst.host)] + LoginParts(dst));
    LoadWords(dst);
    LongerFirstPart(" | mysql", "--host=", dst.host, LoginParts(dst));
    assert " | mysql" + " " == " | mysql ";
    assert " | " + "mysql" == " | mysql";
    Assoc(" | ", "mysql", rest);
  }

  lemma CloneText(src: DbLogin, dst: DbLogin)
    ensures PartsText(CloneParts(src, dst)) == CloneCommand(src, dst)
  {
    DumpText(src);
    LoadText(dst);
    PartsTextConcat(HostParts(RenderCommand(DumpWords()) + " ", src) + LoginParts(src),
                    [Part(" | mysql " + "--host=", dst.host)] + LoginParts(dst));
    Assoc(RenderCommand(DumpItems(src)), " | ", RenderCommand(LoadItems(dst)));
  }

  lemma RemoteFront(db: DbLogin, port: string, c: Command)
    requires c == [Bare("mysqldump"), Opt("--host=", db.host), Opt("--port=", port), Opt("--user=", db.user),
                   Opt("--password=", db.password)]
    ensures RenderCommand(c) == PartsText(RemoteParts(db, port)[..4])
  {
    var words: Command := [Bare("mysqldump")];
    var rest := RemoteParts(db, port)[1..4];
    RenderOpts(words, c[1..]);
    assert words + c[1..] == c;
    assert RenderCommand(words) == "mysqldump";
    assert PartsOf(c[1..]) == [Part(" " + "--host=", db.host)] + rest;
    LongerFirstPart("mysqldump", "--host=", db.host, rest);
    assert "mysqldump" + " " == "mysqldump ";
    assert [Part("mysqldump " + "--host=", db.host)] + rest == RemoteParts(db, port)[..4];
  }

  lemma RemoteBack(c: Command, name: string)
    requires c != []
    ensures RenderCommand(c + [Bare("--single-transaction"), Bare("--quick"), Value(name)])
         == RenderCommand(c) + PartsText([Part(" --single-transaction " + "--quick ", name)])
  {
    var a := c + [Bare("--single-transaction")];
    var b := a + [Bare("--quick")];
    var last := Part(" --single-transaction " + "--quick ", name);
    RenderOneMore(c, Bare("--single-transaction"));
    RenderOneMore(a, Bare("--quick"));
    RenderOneMore(b, Value(name));
    assert c + [Bare("--single-transaction"), Bare("--quick"), Value(name)] == b + [Value(name)];
    WordsInBetween(RenderCommand(c), ShellQuote(name));
    assert [last][1..] == [];
  }

  lemma RemoteText(db: DbLogin, port: string)
    ensures PartsText(RemoteParts(db, port)) == RemoteDumpCommand(db, port)
  {
    var c := RemoteDumpItems(db, port)[..5];
    var front, last := RemoteParts(db, port)[..4], RemoteParts(db, port)[4];
    RemoteFront(db, port, c);
    RemoteBack(c, db.name);
    assert RemoteDumpItems(db, port) == c + [Bare("--single-transaction"), Bare("--quick"), Value(db.name)];
    assert RemoteParts(db, port) == front + [last];
    PartsTextConcat(front, [last]);
  }

  lemma WordsInBetween(a: string, v: string)
    ensures a + " " + "--single-transaction" + " " + "--quick" + " " + v == a + ((" --single-transaction " + "--quick ") + v)
  {
    assert " " + "--single-transaction" + " " == " --single-transaction " && "--quick" + " " == "--quick ";
  }

  // ---------------------------------------------------------------------------------------
  // What the agent's markers mean for their flags
  // ---------------------------------------------------------------------------------------

  /** No text that ends like this ends in a marker. */
  ghost predicate NeverStem(f: string, ms: seq<string>) {
    forall x :: !EndsInStem(x + f, ms)
  }

  ghost predicate FlagsOk(ms: seq<string>) {
    && StemsOk(ms) && EndsInStem(" " + "--password=", ms) && !EndsInStem(" ", ms)
    && NeverStem("--host=", ms) && NeverStem("--port=", ms) && NeverStem("--user=", ms) && NeverStem("--quick ", ms)
  }

  /** How the markers end, in front of the quote. */
  ghost predicate HasMarkerEnd(m: string) {
    && |m| >= 3
    && var x, y := m[|m| - 3], m[|m| - 2];
       (x == '-' && y == 'p') || (x == 'd' && y == '=') || (x == 's' && y == '=') || (x == 'Y' && y == ' ')
  }

  lemma StemEnds(m: string, x: string, f: string)
    requires |m| >= 3 && |f| >= 2
    ensures IsStemOf(m, x + f) ==> m[|m| - 2] == f[|f| - 1] && m[|m| - 3] == f[|f| - 2]
  {
    var p := x + f;
    if IsStemOf(m, p) {
      assert p[|p| + 1 - |m|..][|m| - 2] == m[..|m| - 1][|m| - 2];
      assert p[|p| + 1 - |m|..][|m| - 3] == m[..|m| - 1][|m| - 3];
    }
  }

  lemma NeverBy(f: string, ms: seq<string>)
    requires |f| >= 2 && forall m :: m in ms ==> HasMarkerEnd(m)
    requires f[|f| - 2] in {'t', 'r', 'k', '*'}
    ensures NeverStem(f, ms)
  {
    forall x, m | m in ms
      ensures !IsStemOf(m, x + f)
    {
      StemEnds(m, x, f);
    }
  }

  lemma MarkersEnd()
    ensures forall m :: m in AGENT_RULES.markers ==> HasMarkerEnd(m)
  {
  }

  lemma PasswordIsStem()
    ensures EndsInStem("--password=", AGENT_RULES.markers)
  {
    var m := AGENT_RULES.markers[1];
    assert m == "--password='";
    assert m[..|m| - 1] == "--password=" == "--password="[0..];
    assert IsStemOf(m, "--password=");
  }

  lemma StemStays(x: string, f: string, ms: seq<string>)
    requires EndsInStem(f, ms)
    ensures EndsInStem(x + f, ms)
  {
    var m :| m in ms && IsStemOf(m, f);
    var p := x + f;
    assert p[|p| + 1 - |m|..] == f[|f| + 1 - |m|..];
    assert IsStemOf(m, p);
  }

  lemma FlagsByEnds(ms: seq<string>)
    requires AreMarkers(ms) && EndsInStem("--password=", ms) && forall m :: m in ms ==> HasMarkerEnd(m)
    ensures FlagsOk(ms)
  {
    assert forall m :: m in ms ==> !IsStemOf(m, " ") && !IsStemOf(m, "") && !IsStemOf(m, "\\");
    NeverBy("--host=", ms);
    NeverBy("--port=", ms);
    NeverBy("--user=", ms);
    NeverBy("--quick ", ms);
    NeverBy("***", ms);
    assert "" + "***" == "***";
    StemStays(" ", "--password=", ms);
  }

  lemma AgentFlagsOk()
    ensures FlagsOk(AGENT_RULES.markers)
  {
    AgentRulesOk();
    MarkersEnd();
    PasswordIsStem();
    FlagsByEnds(AGENT_RULES.markers);
  }

  lemma DumpLeadIsPlain()
    ensures QuoteFree(RenderCommand(DumpWords()) + " ")
  {
    assert DumpWords()[..3][..2] == DumpWords()[..2] && DumpWords()[..2][..1] == DumpWords()[..1];
    assert RenderCommand(DumpWords()[..1]) == "mysqldump";
    assert RenderCommand(DumpWords()[..2]) == "mysqldump" + " " + "--single-transaction";
    assert RenderCommand(DumpWords()[..3]) == RenderCommand(DumpWords()[..2]) + " " + "--quick";
    assert RenderCommand(DumpWords()) == RenderCommand(DumpWords()[..3]) + " " + "--no-tablespaces";
    WordsAreQuoteFree();
  }

  lemma WordsAreQuoteFree()
    ensures QuoteFree("mysqldump") && QuoteFree("--single-transaction") && QuoteFree("--quick") && QuoteFree("--no-tablespaces")
    ensures QuoteFree("--host=") && QuoteFree("--port=") && QuoteFree("--user=") && QuoteFree("--password=")
    ensures QuoteFree(" ") && QuoteFree(" | mysql ") && QuoteFree("mysqldump ") && QuoteFree(" --single-transaction ")
    ensures QuoteFree("--quick ")
  {
  }

  /** Plain text of two pieces, the first of which has a space. */
  lemma PlainOk(lead: string, flag: string)
    requires QuoteFree(lead) && QuoteFree(flag) && ' ' in lead
    ensures QuoteFree(lead + flag) && lead + flag != "***"
  {
    assert ' ' in lead + flag;
  }

  lemma ClonePlainsOk(src: DbLogin, dst: DbLogin)
    ensures PlainsOk(CloneParts(src, dst))
  {
    WordsAreQuoteFree();
    DumpLeadIsPlain();
    PlainOk(RenderCommand(DumpWords()) + " ", "--host=");
    PlainOk(" ", "--port=");
    PlainOk(" ", "--user=");
    PlainOk(" ", "--password=");
    PlainOk(" | mysql ", "--host=");
    assert PlainsOk(HostParts(RenderCommand(DumpWords()) + " ", src));
    assert PlainsOk(LoginParts(src)) && PlainsOk([Part(" | mysql " + "--host=", dst.host)] + LoginParts(dst));
  }

  lemma RemotePlainsOk(db: DbLogin, port: string)
    ensures PlainsOk(RemoteParts(db, port))
  {
    WordsAreQuoteFree();
    PlainOk("mysqldump ", "--host=");
    PlainOk(" ", "--port=");
    PlainOk(" ", "--user=");
    PlainOk(" ", "--password=");
    PlainOk(" --single-transaction ", "--quick ");
  }

  // ---------------------------------------------------------------------------------------
  // The passwords in the log
  // ---------------------------------------------------------------------------------------

  /** A database command is logged masked: it is no flag and assigns none, and no flag precedes it. */
  ghost predicate IsFragment(c: string) {
    c != "" && c[0] != '-'
  }

  ghost predicate NoFlagLast(front: seq<string>, rules: Rules) {
    front != [] ==> !IsFlag(front[|front| - 1], rules)
  }

  lemma FragmentIsMasked(c: string, rules: Rules)
    requires RulesOk(rules) && IsFragment(c)
    ensures !IsAssignment(c, rules) && !IsFlag(c, rules)
  {
  }

  lemma {:induction false} FragmentEntry(front: seq<string>, c: string, maskNext: bool, rules: Rules, debug: string -> string)
    requires RulesOk(rules) && IsFragment(c) && NoFlagLast(front, rules) && (front == [] ==> !maskNext)
    ensures Entries(front + [c], maskNext, rules, debug)
         == Entries(front, maskNext, rules, debug) + [debug(Mask(c, rules.markers))]
  {
    if front == [] {
      FragmentIsMasked(c, rules);
      assert front + [c] == [c] && [c][1..] == [];
    } else {
      var next := !maskNext && !IsAssignment(front[0], rules) && IsFlag(front[0], rules);
      assert (front + [c])[1..] == front[1..] + [c];
      FragmentEntry(front[1..], c, next, rules, debug);
      Assoc(Entries(front, maskNext, rules, debug)[..1], Entries(front[1..], next, rules, debug), [debug(Mask(c, rules.markers))]);
    }
  }

  /** The log lines of two such commands are the same exactly if the masked commands are. */
  lemma FragmentLogIff(program: string, front: seq<string>, c: string, d: string, debug: string -> string)
    requires IsDebugForm(debug) && IsFragment(c) && IsFragment(d) && NoFlagLast(front, AGENT_RULES)
    ensures LogLine(program, front + [c], AGENT_RULES, debug) == LogLine(program, front + [d], AGENT_RULES, debug)
            <==> Mask(c, AGENT_RULES.markers) == Mask(d, AGENT_RULES.markers)
  {
    AgentRulesOk();
    FragmentEntry(front, c, false, AGENT_RULES, debug);
    FragmentEntry(front, d, false, AGENT_RULES, debug);
    var x, y := debug(Mask(c, AGENT_RULES.markers)), debug(Mask(d, AGENT_RULES.markers));
    if LogLine(program, front + [c], AGENT_RULES, debug) == LogLine(program, front + [d], AGENT_RULES, debug) {
      SameLineSameEntries(program, front + [c], front + [d], AGENT_RULES, debug);
      SameEnds(Entries(front, false, AGENT_RULES, debug), [x], [y], []);
      assert [x][0] == [y][0];
      DebugIsInjective(debug, Mask(c, AGENT_RULES.markers), Mask(d, AGENT_RULES.markers));
    }
  }

  lemma {:induction false} StartsWithItsWord(c: Command)
    requires c != [] && c[0].Bare? && c[0].text != ""
    ensures RenderCommand(c) != "" && RenderCommand(c)[0] == c[0].text[0]
  {
    if |c| > 1 {
      StartsWithItsWord(c[..|c| - 1]);
    }
  }

  lemma CommandsAreFragments(src: DbLogin, dst: DbLogin, port: string)
    ensures IsFragment(CloneCommand(src, dst)) && IsFragment(RemoteDumpCommand(src, port))
  {
    StartsWithItsWord(DumpItems(src));
    StartsWithItsWord(RemoteDumpItems(src, port));
  }

  ghost predicate LoggedAlike(a: seq<Part>, b: seq<Part>, ms: seq<string>) {
    Mask(PartsText(a), ms) == Mask(PartsText(b), ms)
  }

  /** A password between its user name and something that is no flag. */
  lemma PasswordIff(front: seq<Part>, user: string, back: seq<Part>, p: string, q: string, ms: seq<string>)
    requires FlagsOk(ms) && PlainsOk(front + [Part(" " + "--user=", user)] + [Part(" " + "--password=", p)] + back)
    requires back != [] && !EndsInStem(back[0].plain, ms)
    ensures LoggedAlike(front + [Part(" " + "--user=", user)] + [Part(" " + "--password=", p)] + back,
                        front + [Part(" " + "--user=", user)] + [Part(" " + "--password=", q)] + back, ms)
            <==> p == q || (!EndsInStem(user, ms) && SameBehindQuote(p, q))
  {
    var pre, secret := front + [Part(" " + "--user=", user)], " " + "--password=";
    PlainsAround(pre, Part(secret, p), back, pre + [Part(secret, p)] + back);
    assert pre[|pre| - 1] == Part(" " + "--user=", user);
    MaskHidesSecretIff(pre, secret, back, p, q, ms);
  }

  lemma CloneMaskSource(src: DbLogin, dst: DbLogin, p: string, q: string, ms: seq<string>)
    requires FlagsOk(ms)
    ensures Mask(CloneCommand(src.(password := p), dst), ms) == Mask(CloneCommand(src.(password := q), dst), ms)
            <==> p == q || (!EndsInStem(src.user, ms) && SameBehindQuote(p, q))
  {
    var host := HostParts(RenderCommand(DumpWords()) + " ", src);
    var load := [Part(" | mysql " + "--host=", dst.host)] + LoginParts(dst);
    CloneText(src.(password := p), dst);
    CloneText(src.(password := q), dst);
    SplitLogin(host, src.(password := p), load);
    SplitLogin(host, src.(password := q), load);
    ClonePlainsOk(src.(password := p), dst);
    PasswordIff(host, src.user, [Part(" ", src.name)] + load, p, q, ms);
  }

  lemma SplitLogin(front: seq<Part>, d: DbLogin, back: seq<Part>)
    ensures front + LoginParts(d) + back
         == front + [Part(" " + "--user=", d.user)] + [Part(" " + "--password=", d.password)] + ([Part(" ", d.name)] + back)
  {
  }

  lemma PlainsAround(pre: seq<Part>, p: Part, post: seq<Part>, all: seq<Part>)
    requires PlainsOk(all) && all == pre + [p] + post
    ensures PlainsQuoteFree(pre) && QuoteFree(p.plain) && PlainsQuoteFree(post)
  {
    assert p == all[|pre|];
    assert forall i :: 0 <= i < |pre| ==> pre[i] == all[i];
    assert forall i :: 0 <= i < |post| ==> post[i] == all[|pre| + 1 + i];
  }

  lemma CloneMaskTarget(src: DbLogin, dst: DbLogin, p: string, q: string, ms: seq<string>)
    requires FlagsOk(ms)
    ensures Mask(CloneCommand(src, dst.(password := p)), ms) == Mask(CloneCommand(src, dst.(password := q)), ms)
            <==> p == q || (!EndsInStem(dst.user, ms) && SameBehindQuote(p, q))
  {
    var front := HostParts(RenderCommand(DumpWords()) + " ", src) + LoginParts(src);
    var host := [Part(" | mysql " + "--host=", dst.host)];
    CloneText(src, dst.(password := p));
    CloneText(src, dst.(password := q));
    Assoc(front, host, LoginParts(dst.(password := p)));
    Assoc(front, host, LoginParts(dst.(password := q)));
    SplitLogin(front + host, dst.(password := p), []);
    SplitLogin(front + host, dst.(password := q), []);
    NothingBehind(front + host + LoginParts(dst.(password := p)));
    NothingBehind(front + host + LoginParts(dst.(password := q)));
    ClonePlainsOk(src, dst.(password := p));
    PasswordIff(front + host, dst.user, [Part(" ", dst.name)] + [], p, q, ms);
  }

  lemma NothingBehind<T>(a: seq<T>)
    ensures a + [] == a
  {
  }

  lemma RemoteMask(db: DbLogin, port: string, p: string, q: string, ms: seq<string>)
    requires FlagsOk(ms)
    ensures Mask(RemoteDumpCommand(db.(password := p), port), ms) == Mask(RemoteDumpCommand(db.(password := q), port), ms)
            <==> p == q || (!EndsInStem(db.user, ms) && SameBehindQuote(p, q))
  {
    RemoteText(db.(password := p), port);
    RemoteText(db.(password := q), port);
    SplitRemote(db.(password := p), port);
    SplitRemote(db.(password := q), port);
    RemotePlainsOk(db.(password := p), port);
    LastIsNoStem(" --single-transaction ", "--quick ", db.name, ms);
    PasswordIff(RemoteFirst(db, port), db.user, RemoteLast(db), p, q, ms);
  }

  lemma LastIsNoStem(x: string, f: string, v: string, ms: seq<string>)
    requires NeverStem(f, ms)
    ensures !EndsInStem([Part(x + f, v)][0].plain, ms)
  {
  }

  function RemoteFirst(db: DbLogin, port: string): seq<Part> {
    [Part("mysqldump " + "--host=", db.host), Part(" " + "--port=", port)]
  }

  function RemoteLast(db: DbLogin): seq<Part> {
    [Part(" --single-transaction " + "--quick ", db.name)]
  }

  lemma SplitRemote(db: DbLogin, port: string)
    ensures RemoteParts(db, port)
         == RemoteFirst(db, port) + [Part(" " + "--user=", db.user)] + [Part(" " + "--password=", db.password)] + RemoteLast(db)
  {
  }

  lemma ShFlagTakesNoSecret()
    ensures NoFlagLast(["-c"], AGENT_RULES)
  {
  }

  /** `sh -c` with the pipeline of a clone, in the log. */
  function CloneLine(src: DbLogin, dst: DbLogin, debug: string -> string): string {
    LogLine("sh", ["-c"] + [CloneCommand(src, dst)], AGENT_RULES, debug)
  }

  lemma ShFlagIsShown(c: string, debug: string -> string)
    ensures Entries(["-c"] + [c], false, AGENT_RULES, debug) == [debug("-c")] + Entries([c], false, AGENT_RULES, debug)
  {
    assert "-c" + "" == "-c";
    OtherArgumentsAreShown("-c", "", [c], debug);
  }

  /** That is, the masked pipeline as the only argument behind `-c`. */
  lemma CloneLineShows(src: DbLogin, dst: DbLogin, debug: string -> string)
    ensures CloneLine(src, dst, debug)
         == "sh" + " [" + (debug("-c") + ", " + debug(Mask(CloneCommand(src, dst), AGENT_RULES.markers))) + "]"
  {
    AgentFlagsOk();
    AgentRulesOk();
    CommandsAreFragments(src, dst, "");
    var c := CloneCommand(src, dst);
    ShFlagIsShown(c, debug);
    FragmentEntry([], c, false, AGENT_RULES, debug);
    assert [] + [c] == [c];
    TwoEntries(debug("-c"), debug(Mask(c, AGENT_RULES.markers)));
  }

  lemma TwoEntries(a: string, b: string)
    ensures JoinComma([a] + ([] + [b])) == a + ", " + b
  {
    assert ([a] + ([] + [b]))[1..] == [b];
  }

  /** For all credentials: the log tells two source passwords apart unless they are alike from
      their first quotes on and the user name does not end like a marker. */
  lemma CloneLogHidesSourcePasswordIff(src: DbLogin, dst: DbLogin, p: string, q: string, debug: string -> string)
    requires IsDebugForm(debug)
    ensures CloneLine(src.(password := p), dst, debug) == CloneLine(src.(password := q), dst, debug)
            <==> p == q || (!EndsInStem(src.user, AGENT_RULES.markers) && SameBehindQuote(p, q))
  {
    AgentFlagsOk();
    ShFlagTakesNoSecret();
    CommandsAreFragments(src.(password := p), dst, "");
    CommandsAreFragments(src.(password := q), dst, "");
    FragmentLogIff("sh", ["-c"], CloneCommand(src.(password := p), dst), CloneCommand(src.(password := q), dst), debug);
    CloneMaskSource(src, dst, p, q, AGENT_RULES.markers);
  }

  lemma CloneLogHidesTargetPasswordIff(src: DbLogin, dst: DbLogin, p: string, q: string, debug: string -> string)
    requires IsDebugForm(debug)
    ensures CloneLine(src, dst.(password := p), debug) == CloneLine(src, dst.(password := q), debug)
            <==> p == q || (!EndsInStem(dst.user, AGENT_RULES.markers) && SameBehindQuote(p, q))
  {
    AgentFlagsOk();
    ShFlagTakesNoSecret();
    CommandsAreFragments(src, dst.(password := p), "");
    CommandsAreFragments(src, dst.(password := q), "");
    FragmentLogIff("sh", ["-c"], CloneCommand(src, dst.(password := p)), CloneCommand(src, dst.(password := q)), debug);
    CloneMaskTarget(src, dst, p, q, AGENT_RULES.markers);
  }

  /** `ssh` with the dump of an import, in the log. */
  function RemoteDumpLine(ssh: seq<string>, db: DbLogin, port: string, debug: string -> string): string {
    LogLine("ssh", ssh + [RemoteDumpCommand(db, port)], AGENT_RULES, debug)
  }

  /** The same for the dump of an import, behind any arguments of `ssh` of which the last, the
      target, is no flag. */
  lemma RemoteDumpLogHidesPasswordIff(ssh: seq<string>, db: DbLogin, port: string, p: string, q: string, debug: string -> string)
    requires IsDebugForm(debug) && NoFlagLast(ssh, AGENT_RULES)
    ensures RemoteDumpLine(ssh, db.(password := p), port, debug) == RemoteDumpLine(ssh, db.(password := q), port, debug)
            <==> p == q || (!EndsInStem(db.user, AGENT_RULES.markers) && SameBehindQuote(p, q))
  {
    AgentFlagsOk();
    CommandsAreFragments(db.(password := p), db, port);
    CommandsAreFragments(db.(password := q), db, port);
    FragmentLogIff("ssh", ssh, RemoteDumpCommand(db.(password := p), port), RemoteDumpCommand(db.(password := q), port), debug);
    RemoteMask(db, port, p, q, AGENT_RULES.markers);
  }

  /** `user@host` is no flag. */
  lemma TargetIsNoFlag(ssh: seq<string>, user: string, host: string)
    ensures NoFlagLast(ssh + [user + ("@" + host)], AGENT_RULES)
  {
    var target := user + ("@" + host);
    assert target[|user|] == '@';
    assert forall f :: f in AGENT_RULES.flags ==> '@' !in f;
  }

  /** Passwords without quotes are kept out of the log exactly if the user name does not end like
      a marker. */
  lemma QuoteFreePasswordsAreHiddenIff(src: DbLogin, dst: DbLogin, debug: string -> string)
    requires IsDebugForm(debug)
    ensures (forall p, q :: QuoteFree(p) && QuoteFree(q) ==>
                 CloneLine(src.(password := p), dst, debug) == CloneLine(src.(password := q), dst, debug))
            <==> !EndsInStem(src.user, AGENT_RULES.markers)
  {
    forall p, q | QuoteFree(p) && QuoteFree(q)
      ensures CloneLine(src.(password := p), dst, debug) == CloneLine(src.(password := q), dst, debug)
              <==> p == q || !EndsInStem(src.user, AGENT_RULES.markers)
    {
      SplitFront(p, "");
      SplitFront(q, "");
      CloneLogHidesSourcePasswordIff(src, dst, p, q, debug);
    }
    assert QuoteFree("") && QuoteFree("a") && "" != "a";
  }

  /** The user `shop-p`: every password is in the log. */
  lemma UserShowsPassword(src: DbLogin, dst: DbLogin, p: string, q: string, debug: string -> string)
    requires IsDebugForm(debug) && src.user == "shop-p" && p != q
    ensures CloneLine(src.(password := p), dst, debug) != CloneLine(src.(password := q), dst, debug)
  {
    var m := AGENT_RULES.markers[0];
    assert m == "-p'" && m[..2] == "-p" && "shop-p"[4..] == "-p";
    assert IsStemOf(m, "shop-p");
    CloneLogHidesSourcePasswordIff(src, dst, p, q, debug);
  }

  const HIDDEN := "***"

  ghost predicate LoginClear(d: DbLogin, ms: seq<string>) {
    IsShown(d.user, ms) && QuoteFree(d.password) && IsShown(d.name, ms)
  }

  ghost predicate HostClear(d: DbLogin, ms: seq<string>) {
    IsShown(HostOnly(d.host), ms) && (Port(d.host).Some? ==> IsShown(Port(d.host).value, ms))
  }

  /** The redactor leaves the command itself, with stars for its secrets, exactly if no secret has
      a quote and no piece of any other value ends like a marker. */
  lemma MaskIsStarredIff(parts: seq<Part>, ms: seq<string>)
    requires StemsOk(ms) && PlainsOk(parts)
    ensures Mask(PartsText(parts), ms) == PartsText(HideParts(parts, ms)) <==> AllClear(parts, ms)
  {
    PiecesAreTheText(parts);
    PiecesAreTheText(HideParts(parts, ms));
    MaskedAsIff(Pieces(parts), Pieces(HideParts(parts, ms)), ms);
    StarredIff(parts, false, ms);
  }

  lemma HideConcat(a: seq<Part>, b: seq<Part>, ms: seq<string>)
    ensures HideParts(a + b, ms) == HideParts(a, ms) + HideParts(b, ms)
    ensures AllClear(a + b, ms) <==> AllClear(a, ms) && AllClear(b, ms)
  {
    assert forall i :: 0 <= i < |a| ==> (a + b)[i] == a[i];
    assert forall i :: 0 <= i < |b| ==> (a + b)[|a| + i] == b[i];
  }

  lemma HostStarred(lead: string, src: DbLogin, ms: seq<string>)
    requires FlagsOk(ms)
    ensures HideParts(HostParts(lead, src), ms) == HostParts(lead, src)
    ensures AllClear(HostParts(lead, src), ms) <==> HostClear(src, ms)
  {
    var parts := HostParts(lead, src);
    assert IsClear(parts[0], ms) <==> IsShown(HostOnly(src.host), ms);
    assert Port(src.host).Some? ==> (IsClear(parts[1], ms) <==> IsShown(Port(src.host).value, ms));
  }

  lemma LoginStarred(d: DbLogin, ms: seq<string>)
    requires FlagsOk(ms)
    ensures HideParts(LoginParts(d), ms) == LoginParts(d.(password := HIDDEN))
    ensures AllClear(LoginParts(d), ms) <==> LoginClear(d, ms)
  {
    var parts := LoginParts(d);
    assert IsClear(parts[0], ms) <==> IsShown(d.user, ms);
    assert IsClear(parts[1], ms) <==> QuoteFree(d.password);
    assert IsClear(parts[2], ms) <==> IsShown(d.name, ms);
  }

  lemma OneStarred(plain: string, v: string, ms: seq<string>)
    ensures var parts := [Part(plain, v)];
            && HideParts(parts, ms) == [HidePart(parts[0], ms)]
            && (AllClear(parts, ms) <==> IsClear(parts[0], ms))
  {
    assert [Part(plain, v)][0] == Part(plain, v);
  }

  lemma NoStemStarred(x: string, f: string, v: string, ms: seq<string>)
    requires NeverStem(f, ms)
    ensures HideParts([Part(x + f, v)], ms) == [Part(x + f, v)]
    ensures AllClear([Part(x + f, v)], ms) <==> IsShown(v, ms)
  {
    OneStarred(x + f, v, ms);
  }

  lemma LoadHostStarred(host: string, ms: seq<string>)
    requires FlagsOk(ms)
    ensures var parts := [Part(" | mysql " + "--host=", host)];
            HideParts(parts, ms) == parts && (AllClear(parts, ms) <==> IsShown(host, ms))
  {
    NoStemStarred(" | mysql ", "--host=", host, ms);
  }

  lemma CloneStarred(src: DbLogin, dst: DbLogin, ms: seq<string>)
    requires FlagsOk(ms)
    ensures HideParts(CloneParts(src, dst), ms) == CloneParts(src.(password := HIDDEN), dst.(password := HIDDEN))
    ensures AllClear(CloneParts(src, dst), ms)
            <==> HostClear(src, ms) && LoginClear(src, ms) && IsShown(dst.host, ms) && LoginClear(dst, ms)
  {
    var host, load := HostParts(RenderCommand(DumpWords()) + " ", src), [Part(" | mysql " + "--host=", dst.host)];
    HideConcat(host + LoginParts(src), load + LoginParts(dst), ms);
    HideConcat(host, LoginParts(src), ms);
    HideConcat(load, LoginParts(dst), ms);
    HostStarred(RenderCommand(DumpWords()) + " ", src, ms);
    LoginStarred(src, ms);
    LoadHostStarred(dst.host, ms);
    LoginStarred(dst, ms);
  }

  lemma LastEntry(front: seq<string>, x: string, y: string, debug: string -> string)
    requires IsDebugForm(debug)
    ensures front + [debug(x)] == front + [debug(y)] <==> x == y
  {
    if front + [debug(x)] == front + [debug(y)] {
      assert (front + [debug(x)])[|front|] == (front + [debug(y)])[|front|];
      DebugIsInjective(debug, x, y);
    }
  }

  /** The entry of the command `c` behind the arguments `front` shows `starred`. */
  ghost predicate LogShows(front: seq<string>, c: string, starred: string, debug: string -> string) {
    Entries(front + [c], false, AGENT_RULES, debug) == Entries(front, false, AGENT_RULES, debug) + [debug(starred)]
  }

  /** The log of a clone shows the pipeline itself, with stars for both passwords, exactly if no
      password has a quote and no piece of the other credentials ends like a marker. */
  lemma CloneLogIsStarredIff(src: DbLogin, dst: DbLogin, debug: string -> string)
    requires IsDebugForm(debug)
    ensures LogShows(["-c"], CloneCommand(src, dst), CloneCommand(src.(password := HIDDEN), dst.(password := HIDDEN)), debug)
            <==> && HostClear(src, AGENT_RULES.markers) && LoginClear(src, AGENT_RULES.markers)
                 && IsShown(dst.host, AGENT_RULES.markers) && LoginClear(dst, AGENT_RULES.markers)
  {
    AgentFlagsOk();
    AgentRulesOk();
    ShFlagTakesNoSecret();
    CommandsAreFragments(src, dst, "");
    FragmentEntry(["-c"], CloneCommand(src, dst), false, AGENT_RULES, debug);
    CloneMaskIsStarredIff(src, dst, AGENT_RULES.markers);
    LastEntry(Entries(["-c"], false, AGENT_RULES, debug), Mask(CloneCommand(src, dst), AGENT_RULES.markers),
              CloneCommand(src.(password := HIDDEN), dst.(password := HIDDEN)), debug);
  }

  lemma CloneMaskIsStarredIff(src: DbLogin, dst: DbLogin, ms: seq<string>)
    requires FlagsOk(ms)
    ensures Mask(CloneCommand(src, dst), ms) == CloneCommand(src.(password := HIDDEN), dst.(password := HIDDEN))
            <==> HostClear(src, ms) && LoginClear(src, ms) && IsShown(dst.host, ms) && LoginClear(dst, ms)
  {
    CloneText(src, dst);
    CloneText(src.(password := HIDDEN), dst.(password := HIDDEN));
    ClonePlainsOk(src, dst);
    CloneStarred(src, dst, ms);
    MaskIsStarredIff(CloneParts(src, dst), ms);
  }

  lemma RemoteFirstStarred(db: DbLogin, port: string, ms: seq<string>)
    requires FlagsOk(ms)
    ensures HideParts(RemoteFirst(db, port), ms) == RemoteFirst(db, port)
    ensures AllClear(RemoteFirst(db, port), ms) <==> IsShown(db.host, ms) && IsShown(port, ms)
  {
    var host, behind := [Part("mysqldump " + "--host=", db.host)], [Part(" " + "--port=", port)];
    assert RemoteFirst(db, port) == host + behind;
    NoStemStarred("mysqldump ", "--host=", db.host, ms);
    NoStemStarred(" ", "--port=", port, ms);
    HideConcat(host, behind, ms);
  }

  lemma LoginBetween(front: seq<Part>, user: Part, secret: Part, back: seq<Part>, ms: seq<string>)
    requires !EndsInStem(user.plain, ms) && EndsInStem(secret.plain, ms)
    requires HideParts(front, ms) == front && HideParts(back, ms) == back
    ensures HideParts(front + [user] + [secret] + back, ms) == front + [user] + [secret.(value := HIDDEN)] + back
    ensures AllClear(front + [user] + [secret] + back, ms)
            <==> AllClear(front, ms) && IsShown(user.value, ms) && QuoteFree(secret.value) && AllClear(back, ms)
  {
    OneStarred(user.plain, user.value, ms);
    OneStarred(secret.plain, secret.value, ms);
    HideConcat(front + [user] + [secret], back, ms);
    HideConcat(front + [user], [secret], ms);
    HideConcat(front, [user], ms);
  }

  lemma RemoteLastStarred(db: DbLogin, ms: seq<string>)
    requires FlagsOk(ms)
    ensures HideParts(RemoteLast(db), ms) == RemoteLast(db) && (AllClear(RemoteLast(db), ms) <==> IsShown(db.name, ms))
  {
    NoStemStarred(" --single-transaction ", "--quick ", db.name, ms);
  }

  lemma RemoteStarred(db: DbLogin, port: string, ms: seq<string>)
    requires FlagsOk(ms)
    ensures HideParts(RemoteParts(db, port), ms) == RemoteParts(db.(password := HIDDEN), port)
    ensures AllClear(RemoteParts(db, port), ms) <==> IsShown(db.host, ms) && IsShown(port, ms) && LoginClear(db, ms)
  {
    var user, secret := Part(" " + "--user=", db.user), Part(" " + "--password=", db.password);
    SplitRemote(db, port);
    SplitRemote(db.(password := HIDDEN), port);
    RemoteFirstStarred(db, port, ms);
    RemoteLastStarred(db, ms);
    LoginBetween(RemoteFirst(db, port), user, secret, RemoteLast(db), ms);
  }

  lemma RemoteMaskIsStarredIff(db: DbLogin, port: string, ms: seq<string>)
    requires FlagsOk(ms)
    ensures Mask(RemoteDumpCommand(db, port), ms) == RemoteDumpCommand(db.(password := HIDDEN), port)
            <==> IsShown(db.host, ms) && IsShown(port, ms) && LoginClear(db, ms)
  {
    RemoteText(db, port);
    RemoteText(db.(password := HIDDEN), port);
    RemotePlainsOk(db, port);
    RemoteStarred(db, port, ms);
    MaskIsStarredIff(RemoteParts(db, port), ms);
  }

  /** The same for the dump of an import: its entry is the last. */
  lemma RemoteDumpLogIsStarredIff(ssh: seq<string>, db: DbLogin, port: string, debug: string -> string)
    requires IsDebugForm(debug) && NoFlagLast(ssh, AGENT_RULES)
    ensures LogShows(ssh, RemoteDumpCommand(db, port), RemoteDumpCommand(db.(password := HIDDEN), port), debug)
            <==> && IsShown(db.host, AGENT_RULES.markers) && IsShown(port, AGENT_RULES.markers)
                 && LoginClear(db, AGENT_RULES.markers)
  {
    AgentFlagsOk();
    AgentRulesOk();
    CommandsAreFragments(db, db, port);
    FragmentEntry(ssh, RemoteDumpCommand(db, port), false, AGENT_RULES, debug);
    RemoteMaskIsStarredIff(db, port, AGENT_RULES.markers);
    LastEntry(Entries(ssh, false, AGENT_RULES, debug), Mask(RemoteDumpCommand(db, port), AGENT_RULES.markers),
              RemoteDumpCommand(db.(password := HIDDEN), port), debug);
  }
}
