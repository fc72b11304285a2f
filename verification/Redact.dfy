/** The log redactor: which parts of a command line reach the log. */
module Redact {
  import opened Text

  /** The argument names whose value is a secret, and the texts that open an inline secret. */
  datatype Rules = Rules(flags: set<string>, markers: seq<string>)

  const AGENT_RULES := Rules(
    {"--password", "--admin_password", "--dbpass", "--user_pass", "--secret", "--token", "-p", "--restic-password"},
    ["-p'", "--password='", "--dbpass='", "IDENTIFIED BY '"])

  /** A flag starts with a dash and contains no quote; a marker ends in the quote that opens
      the secret and has no other quote. */
  ghost predicate IsFlagName(f: string) {
    f != "" && f[0] == '-' && '\'' !in f
  }

  ghost predicate RulesOk(rules: Rules) {
    AreMarkers(rules.markers) && forall f :: f in rules.flags ==> IsFlagName(f)
  }

  lemma AgentRulesOk()
    ensures RulesOk(AGENT_RULES)
  {
  }

  // ---------------------------------------------------------------------------------------
  // Inline secrets
  // ---------------------------------------------------------------------------------------

  datatype Hit = Hit(at: nat, marker: string)

  ghost predicate IsMarker(m: string) {
    m != "" && m[|m| - 1] == '\'' && forall i :: 0 <= i < |m| - 1 ==> m[i] != '\''
  }

  ghost predicate AreMarkers(ms: seq<string>) {
    forall m :: m in ms ==> IsMarker(m)
  }

  /** `hit` is the first place of `s` where a marker occurs. */
  ghost predicate IsFirst(s: string, ms: seq<string>, hit: Hit) {
    && hit.marker in ms && OccursAt(s, hit.marker, hit.at)
    && forall m, j :: m in ms && 0 <= j < hit.at ==> !OccursAt(s, m, j)
  }

  /** `min_by_key` over the markers that occur: the earliest position wins, ties go to the
      marker listed first. */
  function NextMarker(s: string, ms: seq<string>): (r: Option<Hit>)
    ensures r.Some? ==> IsFirst(s, ms, r.value)
    ensures r.None? ==> forall m, j :: m in ms ==> !OccursAt(s, m, j)
  {
    if ms == [] then None
    else
      var last := ms[|ms| - 1];
      var best := NextMarker(s, ms[..|ms| - 1]);
      assert forall m :: m in ms <==> m in ms[..|ms| - 1] || m == last;
      match Find(s, last)
      case None => best
      case Some(at) => if best.None? || at < best.value.at then Some(Hit(at, last)) else best
  }

  lemma OneMarkerAtAPlace(s: string, m: string, n: string, i: nat)
    requires IsMarker(m) && IsMarker(n) && OccursAt(s, m, i) && OccursAt(s, n, i)
    ensures m == n
  {
    assert s[i + (|m| - 1)] == '\'';
    assert s[i + (|n| - 1)] == '\'';
    if |m| <= |n| {
      CharAt(s, n, i, i + |m| - 1);
    } else {
      CharAt(s, m, i, i + |n| - 1);
    }
    assert |m| == |n|;
    assert m == n;
  }

  /** The first marker is found from the text up to its quote alone: a marker has no quote
      before its end, so none that starts earlier reaches past this quote. */
  lemma FirstMarkerIsLocal(s: string, t: string, ms: seq<string>, hit: Hit)
    requires AreMarkers(ms) && IsFirst(s, ms, hit)
    requires hit.at + |hit.marker| <= |t| && s[..hit.at + |hit.marker|] == t[..hit.at + |hit.marker|]
    ensures IsFirst(t, ms, hit)
  {
    var end := hit.at + |hit.marker|;
    OccursInPrefix(s, t, hit.marker, hit.at, end);
    CharAt(s, hit.marker, hit.at, end - 1);
    forall m, j | m in ms && 0 <= j < hit.at
      ensures !OccursAt(t, m, j)
    {
      assert !OccursAt(s, m, j);
      NoEarlierMarker(s, t, m, j, end);
    }
  }

  lemma FirstIsNext(t: string, ms: seq<string>, hit: Hit)
    requires AreMarkers(ms) && IsFirst(t, ms, hit)
    ensures NextMarker(t, ms) == Some(hit)
  {
    OneMarkerAtAPlace(t, NextMarker(t, ms).value.marker, hit.marker, hit.at);
  }

  lemma NoEarlierMarker(s: string, t: string, m: string, j: nat, end: nat)
    requires IsMarker(m) && j < end <= |s| && end <= |t| && s[..end] == t[..end]
    requires s[end - 1] == '\'' && !OccursAt(s, m, j)
    ensures !OccursAt(t, m, j)
  {
    SamePrefix(s, t, end);
    if j + |m| <= end {
      OccursInPrefix(s, t, m, j, end);
    } else {
      CharAt(t, m, j, end - 1);
    }
  }

  /** One round of the scanner: no marker, a marker whose quote is never closed, or a secret
      between `head`, which ends in a marker, and `tail`. */
  datatype Cut =
    | NoMarker
    | Unterminated(head: string)
    | Secret(head: string, tail: string)

  function CutOf(s: string, ms: seq<string>): (r: Cut)
    ensures r.Secret? ==> |r.tail| < |s|
  {
    match NextMarker(s, ms)
    case None => NoMarker
    case Some(hit) =>
      var start := hit.at + |hit.marker|;
      match Find(s[start..], "'")
      case None => Unterminated(s[..start])
      case Some(close) => Secret(s[..start], s[start + close + 1..])
  }

  /** What `mask_inline_secrets` computes on the text still to be read. */
  function Mask(s: string, ms: seq<string>): string
    decreases |s|
  {
    match CutOf(s, ms)
    case NoMarker => s
    case Unterminated(head) => head + "***"
    case Secret(head, tail) => head + "***'" + Mask(tail, ms)
  }

  method MaskInlineSecrets(input: string, ms: seq<string>) returns (out: string)
    requires AreMarkers(ms)
    ensures out == Mask(input, ms)
  {
    out := "";
    var rest := input;
    while rest != ""
      invariant out + Mask(rest, ms) == Mask(input, ms)
      decreases |rest|
    {
      ghost var before, cut := out, CutOf(rest, ms);
      var next := NextMarker(rest, ms);
      if next.None? {
        out := out + rest;
        return;
      }
      var start := next.value.at + |next.value.marker|;
      out := out + rest[..start];
      var unread := rest[start..];
      var close := Find(unread, "'");
      match close
      case Some(at) =>
        out := out + "***'";
        DropTwice(rest, start, at + 1);
        rest := unread[at + 1..];
        Regroup(before, cut.head, "***'", Mask(rest, ms));
      case None =>
        out := out + "***";
        Assoc(before, cut.head, "***");
        return;
    }
    assert CutOf("", ms).NoMarker?;
    assert out + rest == out;
  }

  lemma Regroup(a: string, b: string, c: string, d: string)
    ensures a + b + c + d == a + (b + c + d)
  {
  }

  /** Behind a head the scanner only looks for the next quote. */
  lemma CutBehindHead(s: string, ms: seq<string>, w: string)
    requires AreMarkers(ms) && !CutOf(s, ms).NoMarker?
    ensures var head := CutOf(s, ms).head;
            CutOf(head + w, ms) ==
              match Find(w, "'") case None => Unterminated(head) case Some(close) => Secret(head, w[close + 1..])
  {
    var hit := NextMarker(s, ms).value;
    var head := CutOf(s, ms).head;
    assert head == s[..hit.at + |hit.marker|];
    MarkerInHead(s, ms, hit, head, w);
    CutAt(head, w, ms, hit);
  }

  lemma MarkerInHead(s: string, ms: seq<string>, hit: Hit, head: string, w: string)
    requires AreMarkers(ms) && IsFirst(s, ms, hit) && head == s[..hit.at + |hit.marker|]
    ensures NextMarker(head + w, ms) == Some(hit)
  {
    SplitConcat(head, w, |head|);
    assert head[..|head|] == head;
    FirstMarkerIsLocal(s, head + w, ms, hit);
    FirstIsNext(head + w, ms, hit);
  }

  lemma CutAt(head: string, w: string, ms: seq<string>, hit: Hit)
    requires NextMarker(head + w, ms) == Some(hit) && hit.at + |hit.marker| == |head|
    ensures CutOf(head + w, ms) ==
            match Find(w, "'") case None => Unterminated(head) case Some(close) => Secret(head, w[close + 1..])
  {
    SplitConcat(head, w, |head|);
    assert head[..|head|] == head && head[|head|..] + w == w;
    match Find(w, "'") {
      case None =>
      case Some(close) => DropTwice(head + w, |head|, close + 1);
    }
  }

  ghost predicate QuoteFree(x: string) {
    '\'' !in x
  }

  lemma FirstQuote(x: string, rest: string)
    requires QuoteFree(x)
    ensures Find(x, "'") == None
    ensures Find(x + "'" + rest, "'") == Some(|x|) && (x + "'" + rest)[|x| + 1..] == rest
  {
    var s := x + "'" + rest;
    assert OccursAt(s, "'", |x|);
    forall j | 0 <= j < |x|
      ensures !OccursAt(s, "'", j) && !OccursAt(x, "'", j)
    {
      assert s[j + 0] == x[j + 0] != "'"[0];
    }
    FindIs(s, "'", |x|);
  }

  lemma SecretParts(s: string, ms: seq<string>) returns (w: string, close: nat)
    requires CutOf(s, ms).Secret?
    ensures s == CutOf(s, ms).head + w
    ensures Find(w, "'") == Some(close) && close < |w| && CutOf(s, ms).tail == w[close + 1..]
  {
    var head := CutOf(s, ms).head;
    w := s[|head|..];
    close := Find(w, "'").value;
    DropTwice(s, |head|, close + 1);
  }

  lemma LaterTextKeepsCut(s: string, ms: seq<string>, more: string)
    requires AreMarkers(ms) && CutOf(s, ms).Secret?
    ensures CutOf(s + more, ms) == Secret(CutOf(s, ms).head, CutOf(s, ms).tail + more)
  {
    var head := CutOf(s, ms).head;
    var w, close := SecretParts(s, ms);
    CutBehindHead(s, ms, w + more);
    Assoc(head, w, more);
    QuoteStaysFirst(w, more, close);
    SplitConcat(w, more, close + 1);
  }

  lemma QuoteStaysFirst(w: string, more: string, close: nat)
    requires Find(w, "'") == Some(close)
    ensures Find(w + more, "'") == Some(close)
  {
    SplitConcat(w, more, |w|);
    assert (w + more)[..|w|] == w[..|w|];
    SameFind(w, w + more, "'", |w|);
  }

  /** A text as the scanner sees it, with the secrets forgotten: clear text that ends in a
      marker, a secret with its closing quote, and so on. */
  datatype Layout =
    | Clear(text: string)
    | Unclosed(text: string)
    | Hidden(text: string, rest: Layout)

  function LayoutOf(s: string, ms: seq<string>): Layout
    decreases |s|
  {
    match CutOf(s, ms)
    case NoMarker => Clear(s)
    case Unterminated(head) => Unclosed(head)
    case Secret(head, tail) => Hidden(head, LayoutOf(tail, ms))
  }

  function Show(l: Layout): string {
    match l
    case Clear(t) => t
    case Unclosed(t) => t + "***"
    case Hidden(t, rest) => t + "***'" + Show(rest)
  }

  lemma {:induction false} MaskShowsLayout(s: string, ms: seq<string>)
    ensures Mask(s, ms) == Show(LayoutOf(s, ms))
    decreases |s|
  {
    if CutOf(s, ms).Secret? {
      MaskShowsLayout(CutOf(s, ms).tail, ms);
    }
  }

  /** The scanner reads a masked text exactly as it read the original. */
  lemma {:induction false} LayoutSurvivesMasking(s: string, ms: seq<string>)
    requires AreMarkers(ms)
    ensures LayoutOf(Mask(s, ms), ms) == LayoutOf(s, ms)
    decreases |s|
  {
    match CutOf(s, ms) {
      case NoMarker =>
      case Unterminated(head) =>
        FirstQuote("***", "");
        CutBehindHead(s, ms, "***");
      case Secret(head, tail) =>
        LayoutSurvivesMasking(tail, ms);
        var masked := Mask(tail, ms);
        FirstQuote("***", masked);
        assert "***" + "'" == "***'";
        CutBehindHead(s, ms, "***'" + masked);
        Assoc(head, "***'", masked);
    }
  }

  lemma MaskIsIdempotent(s: string, ms: seq<string>)
    requires AreMarkers(ms)
    ensures Mask(Mask(s, ms), ms) == Mask(s, ms)
  {
    LayoutSurvivesMasking(s, ms);
    MaskShowsLayout(s, ms);
    MaskShowsLayout(Mask(s, ms), ms);
  }

  /** Exactly the secrets are hidden: two texts are masked alike if and only if the scanner
      sees the same clear text in both. */
  lemma MaskHidesExactlyTheSecrets(s: string, t: string, ms: seq<string>)
    requires AreMarkers(ms)
    ensures Mask(s, ms) == Mask(t, ms) <==> LayoutOf(s, ms) == LayoutOf(t, ms)
  {
    MaskShowsLayout(s, ms);
    MaskShowsLayout(t, ms);
    LayoutSurvivesMasking(s, ms);
    LayoutSurvivesMasking(t, ms);
  }

  /** `pre` ends right behind a marker the scanner acts on. */
  ghost predicate OpensSecret(pre: string, ms: seq<string>)
    decreases |pre|
  {
    match CutOf(pre, ms)
    case NoMarker => false
    case Unterminated(head) => head == pre
    case Secret(_, tail) => OpensSecret(tail, ms)
  }

  /** Between an active marker and its closing quote the masked text does not depend on the
      original: it continues as if the secret were not there. */
  lemma {:induction false} SecretTextIsIrrelevant(pre: string, x: string, post: string, ms: seq<string>)
    requires AreMarkers(ms)
    requires OpensSecret(pre, ms) && QuoteFree(x)
    ensures Mask(pre + (x + "'" + post), ms) == Mask(pre, ms) + "'" + Mask(post, ms)
    decreases |pre|
  {
    var more := x + "'" + post;
    match CutOf(pre, ms) {
      case Unterminated(head) =>
        FirstQuote(x, post);
        CutBehindHead(pre, ms, more);
        assert pre + "***'" + Mask(post, ms) == (pre + "***") + "'" + Mask(post, ms);
      case Secret(head, tail) =>
        SecretTextIsIrrelevant(tail, x, post, ms);
        LaterTextKeepsCut(pre, ms, more);
        Regroup(head + "***'", Mask(tail, ms), "'", Mask(post, ms));
    }
  }

  // ---------------------------------------------------------------------------------------
  // Whole command lines
  // ---------------------------------------------------------------------------------------

  /** The name in front of the first `=`, if there is one. */
  function NameOf(arg: string): Option<string> {
    match Find(arg, "=")
    case None => None
    case Some(i) => Some(arg[..i])
  }

  predicate IsAssignment(arg: string, rules: Rules) {
    NameOf(arg).Some? && NameOf(arg).value in rules.flags
  }

  predicate IsFlag(arg: string, rules: Rules) {
    arg in rules.flags
  }

  /** One log entry for each argument. `debug` is Rust's `{:?}` form of a string. */
  function Entries(args: seq<string>, maskNext: bool, rules: Rules, debug: string -> string): seq<string> {
    if args == [] then []
    else if maskNext then ["\"***\""] + Entries(args[1..], false, rules, debug)
    else if IsAssignment(args[0], rules) then [NameOf(args[0]).value + "=***"] + Entries(args[1..], false, rules, debug)
    else if IsFlag(args[0], rules) then [debug(args[0])] + Entries(args[1..], true, rules, debug)
    else [debug(Mask(args[0], rules.markers))] + Entries(args[1..], false, rules, debug)
  }

  function JoinComma(parts: seq<string>): string {
    if parts == [] then ""
    else if |parts| == 1 then parts[0]
    else parts[0] + ", " + JoinComma(parts[1..])
  }

  function LogLine(program: string, args: seq<string>, rules: Rules, debug: string -> string): string {
    program + " [" + JoinComma(Entries(args, false, rules, debug)) + "]"
  }

  method RedactCommand(program: string, args: seq<string>, rules: Rules, debug: string -> string) returns (line: string)
    requires RulesOk(rules)
    ensures line == LogLine(program, args, rules, debug)
  {
    var out: seq<string> := [];
    var maskNext := false;
    for i := 0 to |args|
      invariant out + Entries(args[i..], maskNext, rules, debug) == Entries(args, false, rules, debug)
    {
      var arg := args[i];
      ghost var before := out;
      DropTwice(args, i, 1);
      if maskNext {
        out := out + ["\"***\""];
        maskNext := false;
      } else if IsAssignment(arg, rules) {
        out := out + [NameOf(arg).value + "=***"];
      } else if IsFlag(arg, rules) {
        maskNext := true;
        out := out + [debug(arg)];
      } else {
        var masked := MaskInlineSecrets(arg, rules.markers);
        out := out + [debug(masked)];
      }
      Assoc(before, out[|before|..], Entries(args[i + 1..], maskNext, rules, debug));
    }
    assert out + [] == out;
    line := program + " [" + JoinComma(out) + "]";
  }

  /** The command lines differ in secrets only: in the value of a secret flag, in the argument
      behind a bare secret flag, or in an inline secret. */
  ghost predicate SameButSecrets(a: seq<string>, b: seq<string>, maskNext: bool, rules: Rules) {
    && |a| == |b|
    && (a != [] ==>
          if maskNext then SameButSecrets(a[1..], b[1..], false, rules)
          else if IsAssignment(a[0], rules) then
            IsAssignment(b[0], rules) && NameOf(a[0]) == NameOf(b[0]) && SameButSecrets(a[1..], b[1..], false, rules)
          else if IsFlag(a[0], rules) then
            a[0] == b[0] && SameButSecrets(a[1..], b[1..], true, rules)
          else
            LayoutOf(a[0], rules.markers) == LayoutOf(b[0], rules.markers) && SameButSecrets(a[1..], b[1..], false, rules))
  }

  /** The clear text in front of the first secret ends in a quote, which no flag contains. */
  lemma PlainStaysPlain(x: string, y: string, rules: Rules)
    requires RulesOk(rules)
    requires LayoutOf(x, rules.markers) == LayoutOf(y, rules.markers)
    requires !IsAssignment(x, rules) && !IsFlag(x, rules)
    ensures !IsAssignment(y, rules) && !IsFlag(y, rules)
  {
    if !LayoutOf(x, rules.markers).Clear? {
      HeadEndsInQuote(y, rules.markers);
      NameEndsBeforeQuote(x, y, |CutOf(y, rules.markers).head|, rules);
    }
  }

  lemma HeadEndsInQuote(s: string, ms: seq<string>)
    requires AreMarkers(ms) && !CutOf(s, ms).NoMarker?
    ensures var head := CutOf(s, ms).head; head != "" && head[|head| - 1] == '\''
  {
    var hit := NextMarker(s, ms).value;
    CharAt(s, hit.marker, hit.at, hit.at + |hit.marker| - 1);
  }

  lemma NameEndsBeforeQuote(x: string, y: string, end: nat, rules: Rules)
    requires RulesOk(rules)
    requires 0 < end <= |x| && end <= |y| && x[..end] == y[..end] && y[end - 1] == '\''
    ensures IsAssignment(y, rules) ==> IsAssignment(x, rules)
    ensures !IsFlag(y, rules)
  {
    if NameOf(y).Some? {
      var eq := Find(y, "=").value;
      if eq < end {
        SameFind(y, x, "=", end);
        SamePrefix(y, x, end);
        assert y[..eq] == x[..eq];
      } else {
        assert y[..eq][end - 1] == '\'';
      }
    }
  }

  /** Noninterference: what is logged does not depend on the secrets. */
  lemma {:induction false} LogIgnoresSecrets(a: seq<string>, b: seq<string>, maskNext: bool, rules: Rules, debug: string -> string)
    requires RulesOk(rules)
    requires SameButSecrets(a, b, maskNext, rules)
    ensures Entries(a, maskNext, rules, debug) == Entries(b, maskNext, rules, debug)
  {
    if a != [] {
      if maskNext {
        LogIgnoresSecrets(a[1..], b[1..], false, rules, debug);
      } else if IsAssignment(a[0], rules) {
        LogIgnoresSecrets(a[1..], b[1..], false, rules, debug);
      } else if IsFlag(a[0], rules) {
        LogIgnoresSecrets(a[1..], b[1..], true, rules, debug);
      } else {
        PlainStaysPlain(a[0], b[0], rules);
        MaskHidesExactlyTheSecrets(a[0], b[0], rules.markers);
        LogIgnoresSecrets(a[1..], b[1..], false, rules, debug);
      }
    }
  }

  /** What Rust's `{:?}` guarantees: a form between double quotes that shows where it ends. The
      stars are not escaped. */
  ghost predicate IsDebugForm(debug: string -> string) {
    && (forall x, y, r, s :: debug(x) + r == debug(y) + s ==> x == y)
    && (forall x :: debug(x) != "" && debug(x)[0] == '"')
    && debug("***") == "\"***\""
  }

  lemma DebugIsInjective(debug: string -> string, x: string, y: string)
    requires IsDebugForm(debug) && debug(x) == debug(y)
    ensures x == y
  {
    assert debug(x) + "" == debug(y) + "";
  }

  /** And nothing else is lost: equal log entries come from command lines that differ in
      secrets only. */
  lemma {:induction false} LogShowsAllButSecrets(a: seq<string>, b: seq<string>, maskNext: bool, rules: Rules, debug: string -> string)
    requires RulesOk(rules) && IsDebugForm(debug)
    requires Entries(a, maskNext, rules, debug) == Entries(b, maskNext, rules, debug)
    ensures SameButSecrets(a, b, maskNext, rules)
  {
    EntriesLength(a, maskNext, rules, debug);
    EntriesLength(b, maskNext, rules, debug);
    if a != [] {
      var ea, eb := Entries(a, maskNext, rules, debug), Entries(b, maskNext, rules, debug);
      assert ea[0] == eb[0] && ea[1..] == eb[1..];
      if maskNext {
        LogShowsAllButSecrets(a[1..], b[1..], false, rules, debug);
      } else if IsAssignment(a[0], rules) || IsAssignment(b[0], rules) {
        AssignmentEntry(a[0], b[0], rules, debug);
        AssignmentEntry(b[0], a[0], rules, debug);
        LogShowsAllButSecrets(a[1..], b[1..], false, rules, debug);
      } else {
        if IsFlag(a[0], rules) {
          FlagIsItsOwnMask(a[0], rules);
          MaskShowsLayout(a[0], rules.markers);
        }
        if IsFlag(b[0], rules) {
          FlagIsItsOwnMask(b[0], rules);
          MaskShowsLayout(b[0], rules.markers);
        }
        DebugIsInjective(debug, Mask(a[0], rules.markers), Mask(b[0], rules.markers));
        MaskHidesExactlyTheSecrets(a[0], b[0], rules.markers);
        if IsFlag(a[0], rules) || IsFlag(b[0], rules) {
          LogShowsAllButSecrets(a[1..], b[1..], true, rules, debug);
        } else {
          LogShowsAllButSecrets(a[1..], b[1..], false, rules, debug);
        }
      }
    }
  }

  /** The two forms of an entry. */
  ghost predicate IsDebugEntry(e: string, debug: string -> string) {
    exists x :: e == debug(x)
  }

  ghost predicate IsNameEntry(e: string, name: string) {
    name != "" && name[0] == '-' && '=' !in name && e == name + "=***"
  }

  ghost predicate IsEntry(e: string, debug: string -> string) {
    IsDebugEntry(e, debug) || exists name :: IsNameEntry(e, name)
  }

  /** Every entry shows where it ends. */
  lemma EntryEnds(e: string, r: string, f: string, s: string, debug: string -> string)
    requires IsDebugForm(debug) && IsEntry(e, debug) && IsEntry(f, debug) && e + r == f + s
    ensures e == f && r == s
  {
    assert e != "" && f != "" && (e + r)[0] == e[0] && (f + s)[0] == f[0];
    if IsDebugEntry(e, debug) {
      var x :| e == debug(x);
      assert IsDebugEntry(f, debug);
      var y :| f == debug(y);
      assert debug(x) + r == debug(y) + s;
    } else {
      var m :| IsNameEntry(e, m);
      assert !IsDebugEntry(f, debug);
      var n :| IsNameEntry(f, n);
      Assoc(m, "=***", r);
      Assoc(n, "=***", s);
      NameEnds(m, "=***" + r, n, "=***" + s);
    }
    assert (e + r)[|e|..] == r && (f + s)[|e|..] == s;
  }

  lemma NameEnds(m: string, r: string, n: string, s: string)
    requires '=' !in m && '=' !in n && r != "" && s != "" && r[0] == s[0] == '='
    requires m + r == n + s
    ensures m == n
  {
    FirstEquals(m, r);
    FirstEquals(n, s);
  }

  lemma FirstEquals(m: string, r: string)
    requires '=' !in m && r != "" && r[0] == '='
    ensures Find(m + r, "=") == Some(|m|) && (m + r)[..|m|] == m
  {
    var s := m + r;
    assert OccursAt(s, "=", |m|);
    forall j | 0 <= j < |m|
      ensures !OccursAt(s, "=", j)
    {
      assert s[j + 0] == m[j + 0] != "="[0];
    }
    FindIs(s, "=", |m|);
  }

  ghost predicate AreEntries(es: seq<string>, debug: string -> string) {
    forall i :: 0 <= i < |es| ==> IsEntry(es[i], debug)
  }

  lemma EntriesBehind(es: seq<string>, debug: string -> string)
    requires es != [] && AreEntries(es, debug)
    ensures AreEntries(es[1..], debug)
  {
  }

  lemma {:induction false} EntriesAreEntries(args: seq<string>, maskNext: bool, rules: Rules, debug: string -> string)
    requires RulesOk(rules) && IsDebugForm(debug)
    ensures AreEntries(Entries(args, maskNext, rules, debug), debug)
  {
    if args != [] {
      var first := Entries(args, maskNext, rules, debug)[0];
      EntriesAreEntries(args[1..], !maskNext && !IsAssignment(args[0], rules) && IsFlag(args[0], rules), rules, debug);
      if maskNext {
        assert first == debug("***");
      } else if IsAssignment(args[0], rules) {
        FindChar(args[0], '=');
        assert IsNameEntry(first, NameOf(args[0]).value);
      }
      assert IsEntry(first, debug);
    }
  }

  /** The entries can be read off the line. */
  lemma {:induction false} LineIsReadable(es: seq<string>, fs: seq<string>, debug: string -> string)
    requires IsDebugForm(debug) && AreEntries(es, debug) && AreEntries(fs, debug)
    requires JoinComma(es) + "]" == JoinComma(fs) + "]"
    ensures es == fs
  {
    if es != [] && fs != [] {
      var e, f := es[0], fs[0];
      var r := if |es| == 1 then "]" else ", " + JoinComma(es[1..]) + "]";
      var s := if |fs| == 1 then "]" else ", " + JoinComma(fs[1..]) + "]";
      JoinFirst(es);
      JoinFirst(fs);
      EntryEnds(e, r, f, s, debug);
      if |es| > 1 && |fs| > 1 {
        CommaBehind(JoinComma(es[1..]) + "]", JoinComma(fs[1..]) + "]");
        EntriesBehind(es, debug);
        EntriesBehind(fs, debug);
        LineIsReadable(es[1..], fs[1..], debug);
      }
    } else if es != [] {
      NotClosed(es, debug);
    } else if fs != [] {
      NotClosed(fs, debug);
    }
  }

  lemma JoinFirst(es: seq<string>)
    requires es != []
    ensures JoinComma(es) + "]" == es[0] + if |es| == 1 then "]" else ", " + JoinComma(es[1..]) + "]"
  {
    if |es| > 1 {
      CommaAndMore(es[0], JoinComma(es[1..]), "]");
    }
  }

  lemma CommaAndMore(a: string, b: string, c: string)
    ensures a + ", " + b + c == a + (", " + b + c)
  {
  }

  lemma CommaBehind(a: string, b: string)
    ensures ", " + a == ", " + b ==> a == b
  {
    assert (", " + a)[2..] == a && (", " + b)[2..] == b;
  }

  lemma NotClosed(es: seq<string>, debug: string -> string)
    requires es != [] && AreEntries(es, debug) && IsDebugForm(debug)
    ensures JoinComma(es) + "]" != "" + "]"
  {
    assert IsEntry(es[0], debug);
    assert es[0] != "" && es[0][0] != ']';
    JoinFirst(es);
  }

  /** The agent's log line of a command line determines the command line up to its secrets, and
      is determined by it up to its secrets. */
  lemma AgentLogHidesExactlySecrets(program: string, a: seq<string>, b: seq<string>, debug: string -> string)
    requires IsDebugForm(debug)
    ensures LogLine(program, a, AGENT_RULES, debug) == LogLine(program, b, AGENT_RULES, debug)
            <==> SameButSecrets(a, b, false, AGENT_RULES)
  {
    AgentRulesOk();
    LogHidesExactlySecrets(program, a, b, AGENT_RULES, debug);
  }

  lemma LogHidesExactlySecrets(program: string, a: seq<string>, b: seq<string>, rules: Rules, debug: string -> string)
    requires RulesOk(rules) && IsDebugForm(debug)
    ensures LogLine(program, a, rules, debug) == LogLine(program, b, rules, debug) <==> SameButSecrets(a, b, false, rules)
  {
    if SameButSecrets(a, b, false, rules) {
      LogIgnoresSecrets(a, b, false, rules, debug);
    }
    if LogLine(program, a, rules, debug) == LogLine(program, b, rules, debug) {
      SameLineSameEntries(program, a, b, rules, debug);
      LogShowsAllButSecrets(a, b, false, rules, debug);
    }
  }

  lemma SameLineSameEntries(program: string, a: seq<string>, b: seq<string>, rules: Rules, debug: string -> string)
    requires RulesOk(rules) && IsDebugForm(debug)
    requires LogLine(program, a, rules, debug) == LogLine(program, b, rules, debug)
    ensures Entries(a, false, rules, debug) == Entries(b, false, rules, debug)
  {
    EntriesAreEntries(a, false, rules, debug);
    EntriesAreEntries(b, false, rules, debug);
    BehindFront(program + " [", JoinComma(Entries(a, false, rules, debug)), JoinComma(Entries(b, false, rules, debug)), "]");
    LineIsReadable(Entries(a, false, rules, debug), Entries(b, false, rules, debug), debug);
  }

  lemma BehindFront(front: string, a: string, b: string, end: string)
    requires front + a + end == front + b + end
    ensures a + end == b + end
  {
    assert (front + a + end)[|front|..] == a + end && (front + b + end)[|front|..] == b + end;
  }

  /** An assignment is logged as its name; no quoted form looks like that. */
  lemma AssignmentEntry(x: string, y: string, rules: Rules, debug: string -> string)
    requires RulesOk(rules) && IsDebugForm(debug) && IsAssignment(x, rules)
    requires Entries([x], false, rules, debug)[0] == Entries([y], false, rules, debug)[0]
    ensures IsAssignment(y, rules) && NameOf(x) == NameOf(y)
  {
    var name := NameOf(x).value;
    assert name[0] == '-';
    assert Entries([x], false, rules, debug)[0] == name + "=***";
    assert (name + "=***")[0] == '-';
    if IsAssignment(y, rules) {
      var other := NameOf(y).value;
      assert name == (name + "=***")[..|name + "=***"| - 4] == (other + "=***")[..|other + "=***"| - 4] == other;
    }
  }

  lemma FlagIsItsOwnMask(x: string, rules: Rules)
    requires RulesOk(rules)
    requires IsFlag(x, rules)
    ensures LayoutOf(x, rules.markers) == Clear(x)
  {
    forall m, j | m in rules.markers && 0 <= j <= |x| - |m|
      ensures !OccursAt(x, m, j)
    {
      CharAt(x, m, j, j + |m| - 1);
    }
  }

  lemma EntriesLength(args: seq<string>, maskNext: bool, rules: Rules, debug: string -> string)
    ensures |Entries(args, maskNext, rules, debug)| == |args|
  {
  }

  // ---------------------------------------------------------------------------------------
  // The agent's rules, written out
  // ---------------------------------------------------------------------------------------

  lemma {:induction false} SameAsItself(a: seq<string>, maskNext: bool, rules: Rules)
    ensures SameButSecrets(a, a, maskNext, rules)
  {
    if a != [] {
      SameAsItself(a[1..], !maskNext && !IsAssignment(a[0], rules) && IsFlag(a[0], rules), rules);
    }
  }

  lemma SameBehindFlag(f: string, v: string, w: string, rest: seq<string>, rules: Rules)
    requires RulesOk(rules) && f in rules.flags && '=' !in f
    ensures SameButSecrets([f, v] + rest, [f, w] + rest, false, rules)
    ensures SameButSecrets([f + ("=" + v)] + rest, [f + ("=" + w)] + rest, false, rules)
  {
    SameAsItself(rest, false, rules);
    FindChar(f, '=');
    assert ([f, v] + rest)[1..] == [v] + rest && ([f, w] + rest)[1..] == [w] + rest;
    assert ([v] + rest)[1..] == rest && ([w] + rest)[1..] == rest;
    assert SameButSecrets([v] + rest, [w] + rest, true, rules);
    FirstEquals(f, "=" + v);
    FirstEquals(f, "=" + w);
    assert ([f + ("=" + v)] + rest)[1..] == rest && ([f + ("=" + w)] + rest)[1..] == rest;
  }

  /** The values of these flags are hidden, in both forms. */
  lemma FlagValuesAreHidden(program: string, f: string, v: string, w: string, rest: seq<string>, debug: string -> string)
    requires f in {"--password", "--admin_password", "--dbpass", "--user_pass", "--secret", "--token", "-p", "--restic-password"}
    ensures LogLine(program, [f, v] + rest, AGENT_RULES, debug) == LogLine(program, [f, w] + rest, AGENT_RULES, debug)
    ensures LogLine(program, [f + ("=" + v)] + rest, AGENT_RULES, debug)
         == LogLine(program, [f + ("=" + w)] + rest, AGENT_RULES, debug)
  {
    AgentRulesOk();
    FlagHasNoEquals(f);
    SameBehindFlag(f, v, w, rest, AGENT_RULES);
    LogIgnoresSecrets([f, v] + rest, [f, w] + rest, false, AGENT_RULES, debug);
    LogIgnoresSecrets([f + ("=" + v)] + rest, [f + ("=" + w)] + rest, false, AGENT_RULES, debug);
  }

  lemma FlagHasNoEquals(f: string)
    requires f in AGENT_RULES.flags
    ensures '=' !in f
  {
  }

  /** So are values in quotes behind these texts. */
  lemma MarkedValuesAreHidden(m: string, x: string, post: string)
    requires m in ["-p'", "--password='", "--dbpass='", "IDENTIFIED BY '"] && QuoteFree(x)
    ensures Mask(m + (x + "'" + post), AGENT_RULES.markers) == m + "***" + "'" + Mask(post, AGENT_RULES.markers)
  {
    AgentRulesOk();
    MarkerOpens(m, AGENT_RULES.markers);
    SecretTextIsIrrelevant(m, x, post, AGENT_RULES.markers);
  }

  lemma MarkerOpens(m: string, ms: seq<string>)
    requires AreMarkers(ms) && m in ms
    ensures OpensSecret(m, ms) && Mask(m, ms) == m + "***"
  {
    MarkerIsFirst(m, ms);
    UnterminatedOpens(m, ms);
  }

  lemma MarkerIsFirst(m: string, ms: seq<string>)
    requires AreMarkers(ms) && m in ms
    ensures CutOf(m, ms) == Unterminated(m)
  {
    assert OccursAt(m, m, 0);
    assert IsFirst(m, ms, Hit(0, m));
    FirstIsNext(m, ms, Hit(0, m));
    assert m[..|m|] == m && m[|m|..] == "";
    FirstQuote("", "");
  }

  lemma UnterminatedOpens(m: string, ms: seq<string>)
    requires CutOf(m, ms) == Unterminated(m)
    ensures OpensSecret(m, ms) && Mask(m, ms) == m + "***"
  {
  }

  /** Every other argument is logged as it is. */
  lemma OtherArgumentsAreShown(name: string, tail: string, rest: seq<string>, debug: string -> string)
    requires name !in {"--password", "--admin_password", "--dbpass", "--user_pass", "--secret", "--token", "-p", "--restic-password"}
    requires '=' !in name && (tail != "" ==> tail[0] == '=')
    requires forall m, j :: m in ["-p'", "--password='", "--dbpass='", "IDENTIFIED BY '"] ==> !OccursAt(name + tail, m, j)
    ensures Entries([name + tail] + rest, false, AGENT_RULES, debug) == [debug(name + tail)] + Entries(rest, false, AGENT_RULES, debug)
  {
    var arg := name + tail;
    ShownArgument(name, tail, AGENT_RULES);
    assert Mask(arg, AGENT_RULES.markers) == arg;
    assert ([arg] + rest)[1..] == rest;
  }

  lemma ShownArgument(name: string, tail: string, rules: Rules)
    requires name !in rules.flags && '=' !in name && (tail != "" ==> tail[0] == '=')
    requires forall f :: f in rules.flags ==> '=' !in f
    ensures !IsAssignment(name + tail, rules) && !IsFlag(name + tail, rules)
  {
    if tail == "" {
      assert name + tail == name;
      FindChar(name, '=');
    } else {
      FirstEquals(name, tail);
      assert (name + tail)[|name|] == '=';
    }
  }
}
