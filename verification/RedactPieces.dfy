/** The redactor in terms of the quotes of a text, and what it makes of the commands that the
    agent builds from quoted values. */
module RedactPieces {
  import opened Text
  import opened Redact

  // ---------------------------------------------------------------------------------------
  // A text split at its quotes
  // ---------------------------------------------------------------------------------------

  function JoinQuotes(ps: seq<string>): string {
    if ps == [] then ""
    else if |ps| == 1 then ps[0]
    else ps[0] + "'" + JoinQuotes(ps[1..])
  }

  function SplitQuotes(s: string): (ps: seq<string>)
    ensures ps != []
  {
    if s == "" then [""]
    else
      var rest := SplitQuotes(s[1..]);
      if s[0] == '\'' then [""] + rest else [[s[0]] + rest[0]] + rest[1..]
  }

  ghost predicate AllQuoteFree(ps: seq<string>) {
    forall i :: 0 <= i < |ps| ==> QuoteFree(ps[i])
  }

  lemma {:induction false} SplitIsExact(s: string)
    ensures JoinQuotes(SplitQuotes(s)) == s && AllQuoteFree(SplitQuotes(s))
  {
    if s != "" {
      SplitIsExact(s[1..]);
      var rest, ps := SplitQuotes(s[1..]), SplitQuotes(s);
      assert ps[1..] == if s[0] == '\'' then rest else rest[1..];
      assert s == [s[0]] + s[1..];
      if s[0] == '\'' {
        assert JoinQuotes(ps) == "" + "'" + JoinQuotes(rest);
      } else if |rest| > 1 {
        assert [s[0]] + (rest[0] + "'" + JoinQuotes(rest[1..])) == ([s[0]] + rest[0]) + "'" + JoinQuotes(rest[1..]);
      }
    }
  }

  /** The piece ends in the part of a marker in front of its quote. */
  predicate EndsInStem(p: string, ms: seq<string>) {
    exists m :: m in ms && IsStemOf(m, p)
  }

  predicate IsStemOf(m: string, p: string) {
    0 < |m| <= |p| + 1 && p[|p| + 1 - |m|..] == m[..|m| - 1]
  }

  /** What is behind a marker is hidden up to the next quote, or to the end. */
  function MaskPieces(ps: seq<string>, ms: seq<string>): seq<string>
    requires ps != []
  {
    if |ps| == 1 then ps
    else if !EndsInStem(ps[0], ms) then [ps[0]] + MaskPieces(ps[1..], ms)
    else if |ps| == 2 then [ps[0], "***"]
    else [ps[0], "***"] + MaskPieces(ps[2..], ms)
  }

  /** A marker that starts in `p` ends in the quote behind it. */
  lemma MarkerEndsAtQuote(p: string, r: string, m: string, j: nat)
    requires QuoteFree(p) && IsMarker(m) && j <= |p|
    ensures OccursAt(p + "'" + r, m, j) <==> j + |m| == |p| + 1 && IsStemOf(m, p)
  {
    var s := p + "'" + r;
    if OccursAt(s, m, j) {
      assert s[j + (|m| - 1)] == '\'';
      CharAt(s, m, j, |p|);
      assert j + |m| == |p| + 1;
      forall k | 0 <= k < |m| - 1
        ensures p[j..][k] == m[..|m| - 1][k]
      {
        assert s[j + k] == m[k];
      }
    }
    if j + |m| == |p| + 1 && IsStemOf(m, p) {
      forall k | 0 <= k < |m|
        ensures s[j + k] == m[k]
      {
        assert k < |m| - 1 ==> p[j..][k] == m[..|m| - 1][k];
      }
    }
  }

  lemma LaterMarker(p: string, r: string, m: string, j: nat)
    ensures OccursAt(p + "'" + r, m, |p| + 1 + j) == OccursAt(r, m, j)
  {
    var s := p + "'" + r;
    assert s[|p| + 1..] == r;
    if OccursAt(r, m, j) {
      forall k | 0 <= k < |m|
        ensures s[|p| + 1 + j + k] == m[k]
      {
        assert s[|p| + 1..][j + k] == r[j + k];
      }
    }
    if OccursAt(s, m, |p| + 1 + j) {
      forall k | 0 <= k < |m|
        ensures r[j + k] == m[k]
      {
        assert s[|p| + 1..][j + k] == s[|p| + 1 + j + k];
      }
    }
  }

  /** A piece that does not end in a marker passes. */
  lemma MaskSkips(p: string, r: string, ms: seq<string>)
    requires AreMarkers(ms) && QuoteFree(p) && !EndsInStem(p, ms)
    ensures Mask(p + "'" + r, ms) == p + "'" + Mask(r, ms)
  {
    var s := p + "'" + r;
    var n := |p| + 1;
    forall m, j | m in ms && 0 <= j <= |p|
      ensures !OccursAt(s, m, j)
    {
      MarkerEndsAtQuote(p, r, m, j);
    }
    match NextMarker(r, ms) {
      case None =>
        forall m, j | m in ms && 0 <= j
          ensures !OccursAt(s, m, j)
        {
          if j > |p| {
            LaterMarker(p, r, m, j - n);
          }
        }
        assert NextMarker(s, ms) == None;
      case Some(hit) =>
        forall m, j | m in ms && 0 <= j < n + hit.at
          ensures !OccursAt(s, m, j)
        {
          if j > |p| {
            LaterMarker(p, r, m, j - n);
          }
        }
        LaterMarker(p, r, hit.marker, hit.at);
        FirstIsNext(s, ms, Hit(n + hit.at, hit.marker));
        CutIsShifted(p + "'", r, ms, hit);
    }
  }

  lemma ShiftedCut(front: string, r: string, ms: seq<string>, hit: Hit)
    requires NextMarker(r, ms) == Some(hit) && NextMarker(front + r, ms) == Some(Hit(|front| + hit.at, hit.marker))
    requires hit.at + |hit.marker| <= |r|
    ensures CutOf(front + r, ms) ==
            match CutOf(r, ms)
            case NoMarker => NoMarker
            case Unterminated(head) => Unterminated(front + head)
            case Secret(head, tail) => Secret(front + head, tail)
  {
    var start := hit.at + |hit.marker|;
    assert (front + r)[|front| + start..] == r[start..];
    assert (front + r)[..|front| + start] == front + r[..start];
    match Find(r[start..], "'") {
      case None =>
      case Some(close) =>
        DropTwice(front + r, |front| + start, close + 1);
        DropTwice(r, start, close + 1);
    }
  }

  lemma MaskOfCut(s: string, ms: seq<string>)
    ensures match CutOf(s, ms)
            case NoMarker => Mask(s, ms) == s
            case Unterminated(head) => Mask(s, ms) == head + "***"
            case Secret(head, tail) => Mask(s, ms) == head + "***'" + Mask(tail, ms)
  {
  }

  lemma CutIsShifted(front: string, r: string, ms: seq<string>, hit: Hit)
    requires NextMarker(r, ms) == Some(hit) && NextMarker(front + r, ms) == Some(Hit(|front| + hit.at, hit.marker))
    requires hit.at + |hit.marker| <= |r|
    ensures Mask(front + r, ms) == front + Mask(r, ms)
  {
    ShiftedCut(front, r, ms, hit);
    MaskOfCut(front + r, ms);
    MaskOfCut(r, ms);
    match CutOf(r, ms) {
      case NoMarker =>
      case Unterminated(head) => Assoc(front, head, "***");
      case Secret(head, tail) => Regroup(front, head, "***'", Mask(tail, ms));
    }
  }

  /** Behind a marker everything up to the next quote is hidden. */
  lemma MaskHides(p: string, x: string, r: string, ms: seq<string>)
    requires AreMarkers(ms) && QuoteFree(p) && EndsInStem(p, ms) && QuoteFree(x)
    ensures Mask(p + "'" + (x + "'" + r), ms) == p + "'" + "***" + "'" + Mask(r, ms)
  {
    var w := x + "'" + r;
    CutAtMarker(p, w, ms);
    FirstQuote(x, r);
    DropTwice(p + "'" + w, |p| + 1, |x| + 1);
    assert CutOf(p + "'" + w, ms) == Secret(p + "'", r);
    MaskOfCut(p + "'" + w, ms);
    StarsRegroup(p + "'", Mask(r, ms));
  }

  lemma StarsRegroup(front: string, rest: string)
    ensures front + "***'" + rest == front + "***" + "'" + rest
  {
  }

  lemma MaskHidesTheRest(p: string, x: string, ms: seq<string>)
    requires AreMarkers(ms) && QuoteFree(p) && EndsInStem(p, ms) && QuoteFree(x)
    ensures Mask(p + "'" + x, ms) == p + "'" + "***"
  {
    CutAtMarker(p, x, ms);
    FirstQuote(x, "");
    MaskOfCut(p + "'" + x, ms);
  }

  lemma CutAtMarker(p: string, w: string, ms: seq<string>)
    requires AreMarkers(ms) && QuoteFree(p) && EndsInStem(p, ms)
    ensures var s := p + "'" + w;
            && s[..|p| + 1] == p + "'" && s[|p| + 1..] == w
            && CutOf(s, ms) ==
                 match Find(w, "'")
                 case None => Unterminated(p + "'")
                 case Some(close) => Secret(p + "'", s[|p| + 1 + close + 1..])
  {
    var s := p + "'" + w;
    var m :| m in ms && IsStemOf(m, p);
    MarkerEndsAtQuote(p, w, m, |p| + 1 - |m|);
    var hit := NextMarker(s, ms).value;
    assert hit.at <= |p|;
    MarkerEndsAtQuote(p, w, hit.marker, hit.at);
    assert s[..|p| + 1] == p + "'" && s[|p| + 1..] == w;
  }

  lemma NoMarkerInside(p: string, ms: seq<string>)
    requires AreMarkers(ms) && QuoteFree(p)
    ensures Mask(p, ms) == p
  {
    forall m, j | m in ms && 0 <= j <= |p| - |m|
      ensures !OccursAt(p, m, j)
    {
      CharAt(p, m, j, j + |m| - 1);
      assert p[j + |m| - 1] in p;
    }
  }

  /** The scanner, for every text: split at the quotes, each piece behind one that ends in a
      marker is hidden. */
  lemma {:induction false} MaskIsByPieces(ps: seq<string>, ms: seq<string>)
    requires AreMarkers(ms) && ps != [] && AllQuoteFree(ps)
    ensures Mask(JoinQuotes(ps), ms) == JoinQuotes(MaskPieces(ps, ms))
    decreases |ps|
  {
    var p := ps[0];
    if |ps| == 1 {
      NoMarkerInside(p, ms);
    } else if !EndsInStem(p, ms) {
      MaskSkips(p, JoinQuotes(ps[1..]), ms);
      MaskIsByPieces(ps[1..], ms);
      assert ([p] + MaskPieces(ps[1..], ms))[1..] == MaskPieces(ps[1..], ms);
    } else {
      if |ps| == 2 {
        MaskHidesTheRest(p, ps[1], ms);
        assert JoinQuotes(ps[1..]) == ps[1];
        assert [p, "***"][1..] == ["***"];
      } else {
        MaskHides(p, ps[1], JoinQuotes(ps[2..]), ms);
        MaskIsByPieces(ps[2..], ms);
        assert ps[1..][1..] == ps[2..];
        TwoInFront(p, "***", MaskPieces(ps[2..], ms));
      }
    }
  }

  lemma TwoInFront(p: string, q: string, ps: seq<string>)
    requires ps != []
    ensures JoinQuotes([p, q] + ps) == p + "'" + q + "'" + JoinQuotes(ps)
  {
    assert ([p, q] + ps)[1..] == [q] + ps && ([q] + ps)[1..] == ps;
  }

  /** So for any text. */
  lemma MaskSplitsAtQuotes(s: string, ms: seq<string>)
    requires AreMarkers(ms)
    ensures Mask(s, ms) == JoinQuotes(MaskPieces(SplitQuotes(s), ms))
  {
    SplitIsExact(s);
    MaskIsByPieces(SplitQuotes(s), ms);
  }

  // ---------------------------------------------------------------------------------------
  // Which pieces are hidden
  // ---------------------------------------------------------------------------------------

  /** A piece is hidden if the one in front of it is shown and ends in a marker; `hidden` says so
      of the first. */
  function StarsFrom(ps: seq<string>, hidden: bool, ms: seq<string>): (r: seq<string>)
    ensures |r| == |ps|
  {
    if ps == [] then []
    else [if hidden then "***" else ps[0]] + StarsFrom(ps[1..], !hidden && EndsInStem(ps[0], ms), ms)
  }

  /** And whether the piece behind them is. */
  function HiddenBehind(ps: seq<string>, hidden: bool, ms: seq<string>): bool {
    if ps == [] then hidden else HiddenBehind(ps[1..], !hidden && EndsInStem(ps[0], ms), ms)
  }

  lemma {:induction false} StarsConcat(a: seq<string>, b: seq<string>, hidden: bool, ms: seq<string>)
    ensures StarsFrom(a + b, hidden, ms) == StarsFrom(a, hidden, ms) + StarsFrom(b, HiddenBehind(a, hidden, ms), ms)
    ensures HiddenBehind(a + b, hidden, ms) == HiddenBehind(b, HiddenBehind(a, hidden, ms), ms)
  {
    if a == [] {
      assert a + b == b;
    } else {
      var next := !hidden && EndsInStem(a[0], ms);
      StarsConcat(a[1..], b, next, ms);
      assert (a + b)[0] == a[0] && (a + b)[1..] == a[1..] + b;
      Assoc([if hidden then "***" else a[0]], StarsFrom(a[1..], next, ms), StarsFrom(b, HiddenBehind(a, hidden, ms), ms));
    }
  }

  lemma {:induction false} MaskedAreStars(ps: seq<string>, ms: seq<string>)
    requires ps != []
    ensures MaskPieces(ps, ms) == StarsFrom(ps, false, ms)
  {
    if |ps| == 1 {
      assert ps == [ps[0]];
    } else if !EndsInStem(ps[0], ms) {
      MaskedAreStars(ps[1..], ms);
    } else {
      assert ps[1..][1..] == ps[2..];
      var behind := StarsFrom(ps[1..], true, ms);
      assert behind == ["***"] + StarsFrom(ps[2..], false, ms);
      if |ps| > 2 {
        MaskedAreStars(ps[2..], ms);
      }
    }
  }

  lemma {:induction false} StarsAreQuoteFree(ps: seq<string>, hidden: bool, ms: seq<string>)
    requires AllQuoteFree(ps)
    ensures AllQuoteFree(StarsFrom(ps, hidden, ms))
  {
    if ps != [] {
      StarsAreQuoteFree(ps[1..], !hidden && EndsInStem(ps[0], ms), ms);
    }
  }

  lemma {:induction false} SplitFront(p: string, r: string)
    requires QuoteFree(p)
    ensures SplitQuotes(p + "'" + r) == [p] + SplitQuotes(r)
    ensures SplitQuotes(p) == [p]
  {
    if p == "" {
      assert (p + "'" + r)[1..] == r;
    } else {
      assert p[0] in p && forall c :: c in p[1..] ==> c in p;
      SplitFront(p[1..], r);
      assert (p + "'" + r)[1..] == p[1..] + "'" + r;
      assert p == [p[0]] + p[1..];
    }
  }

  lemma {:induction false} SplitOfJoin(ps: seq<string>)
    requires ps != [] && AllQuoteFree(ps)
    ensures SplitQuotes(JoinQuotes(ps)) == ps
  {
    if |ps| == 1 {
      SplitFront(ps[0], "");
    } else {
      SplitOfJoin(ps[1..]);
      SplitFront(ps[0], JoinQuotes(ps[1..]));
    }
  }

  /** Two texts are masked alike exactly if the same pieces are left. */
  lemma MaskedAlikeIff(ps: seq<string>, qs: seq<string>, ms: seq<string>)
    requires AreMarkers(ms) && ps != [] && qs != [] && AllQuoteFree(ps) && AllQuoteFree(qs)
    ensures Mask(JoinQuotes(ps), ms) == Mask(JoinQuotes(qs), ms) <==> StarsFrom(ps, false, ms) == StarsFrom(qs, false, ms)
  {
    MaskIsByPieces(ps, ms);
    MaskIsByPieces(qs, ms);
    MaskedAreStars(ps, ms);
    MaskedAreStars(qs, ms);
    StarsAreQuoteFree(ps, false, ms);
    StarsAreQuoteFree(qs, false, ms);
    SplitOfJoin(StarsFrom(ps, false, ms));
    SplitOfJoin(StarsFrom(qs, false, ms));
  }

  /** And a text is masked as `qs` shows exactly if these are the pieces left. */
  lemma MaskedAsIff(ps: seq<string>, qs: seq<string>, ms: seq<string>)
    requires AreMarkers(ms) && ps != [] && qs != [] && AllQuoteFree(ps) && AllQuoteFree(qs)
    ensures Mask(JoinQuotes(ps), ms) == JoinQuotes(qs) <==> StarsFrom(ps, false, ms) == qs
  {
    MaskIsByPieces(ps, ms);
    MaskedAreStars(ps, ms);
    StarsAreQuoteFree(ps, false, ms);
    SplitOfJoin(StarsFrom(ps, false, ms));
    SplitOfJoin(qs);
  }
}
