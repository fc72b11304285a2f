/** Reading database credentials out of a `wp-config.php`, which is parsed as text and never
    executed. */
module WpConfig {
  import opened Text

  // ---------------------------------------------------------------------------------------
  // Quoted strings
  // ---------------------------------------------------------------------------------------

  predicate IsQuote(c: char) {
    c == '\'' || c == '"'
  }

  /** The text up to the closing quote `q`; a backslash takes the next character as it is. */
  function Unquote(s: string, q: char, escaped: bool): Option<string> {
    if s == "" then None
    else if escaped then Cons(s[0], Unquote(s[1..], q, false))
    else if s[0] == '\\' then Unquote(s[1..], q, true)
    else if s[0] == q then Some("")
    else Cons(s[0], Unquote(s[1..], q, false))
  }

  function Cons(c: char, r: Option<string>): Option<string> {
    Prepend([c], r)
  }

  function Prepend(s: string, r: Option<string>): Option<string> {
    match r
    case None => None
    case Some(t) => Some(s + t)
  }

  function Quoted(s: string): Option<string> {
    if s == "" then None
    else if IsQuote(s[0]) then Unquote(s[1..], s[0], false)
    else Quoted(s[1..])
  }

  method FirstQuoted(input: string) returns (r: Option<string>)
    ensures r == Quoted(input)
  {
    var i := 0;
    assert input[0..] == input;
    while i < |input| && !IsQuote(input[i])
      invariant i <= |input| && Quoted(input[i..]) == Quoted(input)
    {
      DropTwice(input, i, 1);
      i := i + 1;
    }
    if i == |input| {
      return None;
    }
    var quote := input[i];
    DropTwice(input, i, 1);
    i := i + 1;
    var value := "";
    var escaped := false;
    PrependNothing(Unquote(input[i..], quote, false));
    while i < |input|
      invariant i <= |input|
      invariant Quoted(input) == Prepend(value, Unquote(input[i..], quote, escaped))
    {
      var c := input[i];
      DropTwice(input, i, 1);
      PrependTwice(value, c, Unquote(input[i + 1..], quote, false));
      i := i + 1;
      if escaped {
        value := value + [c];
        escaped := false;
      } else if c == '\\' {
        escaped := true;
      } else if c == quote {
        return Some(value);
      } else {
        value := value + [c];
      }
    }
    r := None;
  }

  lemma PrependNothing(r: Option<string>)
    ensures Prepend("", r) == r
  {
    if r.Some? {
      assert "" + r.value == r.value;
    }
  }

  lemma PrependTwice(s: string, c: char, r: Option<string>)
    ensures Prepend(s, Cons(c, r)) == Prepend(s + [c], r)
    ensures Prepend(s, Some("")) == Some(s)
  {
    if r.Some? {
      Assoc(s, [c], r.value);
    }
    assert s + "" == s;
  }

  /** A PHP string literal's text: the quote and the backslash are escaped. */
  function Escape(v: string, q: char): string {
    if v == "" then ""
    else (if v[0] == q || v[0] == '\\' then ['\\', v[0]] else [v[0]]) + Escape(v[1..], q)
  }

  lemma {:induction false} UnquoteEscaped(v: string, q: char, tail: string)
    requires q != '\\'
    ensures Unquote(Escape(v, q) + ([q] + tail), q, false) == Some(v)
  {
    var end := [q] + tail;
    if v == "" {
      assert "" + end == end;
    } else {
      UnquoteEscaped(v[1..], q, tail);
      var rest := Escape(v[1..], q) + end;
      assert v == [v[0]] + v[1..];
      if v[0] == q || v[0] == '\\' {
        TwoInFront('\\', v[0], Escape(v[1..], q), end);
      } else {
        OneInFront(v[0], Escape(v[1..], q), end);
      }
    }
  }

  lemma OneInFront(c: char, s: string, t: string)
    ensures var r := ([c] + s) + t; r[0] == c && r[1..] == s + t
  {
  }

  lemma TwoInFront(c: char, d: char, s: string, t: string)
    ensures var r := ([c, d] + s) + t; r[0] == c && r[1..][0] == d && r[1..][1..] == s + t
  {
  }

  ghost predicate NoQuotes(s: string) {
    forall i :: 0 <= i < |s| ==> s[i] != '\'' && s[i] != '"'
  }

  ghost predicate AtMostOneQuote(s: string) {
    forall i, j :: 0 <= i < j < |s| && IsQuote(s[i]) ==> !IsQuote(s[j])
  }

  /** A text with at most one quote holds no quoted string. */
  lemma {:induction false} NothingQuoted(s: string)
    requires AtMostOneQuote(s)
    ensures Quoted(s) == None
  {
    if s != "" {
      if IsQuote(s[0]) {
        assert NoQuotes(s[1..]);
        Unclosed(s[1..], s[0], false);
      } else {
        NothingQuoted(s[1..]);
      }
    }
  }

  lemma {:induction false} Unclosed(s: string, q: char, escaped: bool)
    requires NoQuotes(s) && IsQuote(q)
    ensures Unquote(s, q, escaped) == None
  {
    if s != "" {
      Unclosed(s[1..], q, false);
      Unclosed(s[1..], q, true);
    }
  }

  // ---------------------------------------------------------------------------------------
  // Lines
  // ---------------------------------------------------------------------------------------

  function StripCr(line: string): string {
    if line != "" && line[|line| - 1] == '\r' then line[..|line| - 1] else line
  }

  function LineLength(s: string): (n: nat)
    ensures n <= |s| && (n < |s| ==> s[n] == '\n')
  {
    if s == "" || s[0] == '\n' then 0 else 1 + LineLength(s[1..])
  }

  /** Rust's `str::lines`: ends are `\n` or `\r\n`, the last end is optional. */
  function Lines(s: string): seq<string>
    decreases |s|
  {
    if s == "" then []
    else
      var i := LineLength(s);
      if i == |s| then [s] else [StripCr(s[..i])] + Lines(s[i + 1..])
  }

  predicate HasPrefix(s: string, p: string) {
    p <= s
  }

  /** `s.split_once(p)`: what follows the first occurrence of `p`. */
  function Behind(s: string, p: string): Option<string> {
    if p <= s then Some(s[|p|..])
    else if s == "" then None
    else Behind(s[1..], p)
  }

  predicate Contains(s: string, p: string) {
    Behind(s, p).Some?
  }

  predicate IsComment(trimmed: string) {
    HasPrefix(trimmed, "//") || HasPrefix(trimmed, "#")
  }

  /** `trim_start_matches([')', '\'', '"'])` */
  function StripClosing(s: string): string {
    if s != "" && (s[0] == ')' || IsQuote(s[0])) then StripClosing(s[1..]) else s
  }

  function StripCommas(s: string): string {
    if s != "" && s[0] == ',' then StripCommas(s[1..]) else s
  }

  /** What follows a constant's name, up to its value. */
  function AtValue(after: string): string {
    TrimStart(StripCommas(TrimStart(StripClosing(TrimStart(after)))))
  }

  /** The value one line defines. */
  function DefineIn(line: string, constant: string): Option<string> {
    var trimmed := TrimStart(line);
    if IsComment(trimmed) || HasPrefix(trimmed, "*") then None
    else if !Contains(trimmed, "define") then None
    else
      match Behind(trimmed, constant)
      case None => None
      case Some(after) => Quoted(AtValue(after))
  }

  /** `None`: not a prefix line. `Some(None)`: a prefix line without a value, which ends the
      search. */
  function PrefixIn(line: string): Option<Option<string>> {
    var trimmed := TrimStart(line);
    if IsComment(trimmed) || !HasPrefix(trimmed, "$table_prefix") then None
    else
      var after := TrimStart(trimmed[|"$table_prefix"|..]);
      if !HasPrefix(after, "=") then Some(None)
      else Some(Quoted(TrimStart(after[1..])))
  }

  function FirstIn<T>(lines: seq<string>, f: string -> Option<T>): Option<T> {
    if lines == [] then None
    else if f(lines[0]).Some? then f(lines[0])
    else FirstIn(lines[1..], f)
  }

  function DefinedAs(constant: string): string -> Option<string> {
    (line: string) => DefineIn(line, constant)
  }

  method FindDefine(lines: seq<string>, constant: string) returns (r: Option<string>)
    ensures r == FirstIn(lines, DefinedAs(constant))
  {
    assert lines[0..] == lines;
    for n := 0 to |lines|
      invariant FirstIn(lines[n..], DefinedAs(constant)) == FirstIn(lines, DefinedAs(constant))
    {
      DropTwice(lines, n, 1);
      var trimmed := TrimStart(lines[n]);
      if IsComment(trimmed) || HasPrefix(trimmed, "*") {
        continue;
      }
      if !Contains(trimmed, "define") || !Contains(trimmed, constant) {
        continue;
      }
      var after := Behind(trimmed, constant).value;
      var value := FirstQuoted(AtValue(after));
      if value.Some? {
        return value;
      }
    }
    r := None;
  }

  function TablePrefix(lines: seq<string>): Option<string> {
    match FirstIn(lines, PrefixIn)
    case None => None
    case Some(r) => r
  }

  method FindTablePrefix(lines: seq<string>) returns (r: Option<string>)
    ensures r == TablePrefix(lines)
  {
    assert lines[0..] == lines;
    for n := 0 to |lines|
      invariant FirstIn(lines[n..], PrefixIn) == FirstIn(lines, PrefixIn)
    {
      DropTwice(lines, n, 1);
      var trimmed := TrimStart(lines[n]);
      if IsComment(trimmed) {
        continue;
      }
      if HasPrefix(trimmed, "$table_prefix") {
        var after := TrimStart(trimmed[|"$table_prefix"|..]);
        if !HasPrefix(after, "=") {
          return None;
        }
        r := FirstQuoted(TrimStart(after[1..]));
        return r;
      }
    }
    r := None;
  }

  // ---------------------------------------------------------------------------------------
  // What one line of a configuration means
  // ---------------------------------------------------------------------------------------

  /** A line that PHP's `define` can be written as: `q` quotes, whitespace wherever PHP allows
      it, any text in front and any behind. */
  datatype Style = Style(lead: string, w0: string, w1: string, q: char, w2: string, w3: string, tail: string)

  function DefineWord(st: Style): string {
    "define" + st.w0 + "(" + st.w1 + [st.q]
  }

  function DefineHead(st: Style, lead: string): string {
    lead + DefineWord(st)
  }

  function Between(st: Style): string {
    [st.q] + (st.w2 + ([','] + (st.w3 + [st.q])))
  }

  function Literal(st: Style, v: string): string {
    Escape(v, st.q) + ([st.q] + st.tail)
  }

  function RenderDefine(st: Style, constant: string, v: string): string {
    DefineHead(st, st.lead) + (constant + (Between(st) + Literal(st, v)))
  }

  /** `$table_prefix = 'v';` after an indentation. */
  function PrefixHead(st: Style): string {
    "$table_prefix" + (st.w0 + ("=" + (st.w1 + [st.q])))
  }

  function RenderPrefix(st: Style, v: string): string {
    st.lead + (PrefixHead(st) + Literal(st, v))
  }

  ghost predicate StyleOk(st: Style) {
    && (st.q == '\'' || st.q == '"')
    && AllWhitespace(st.w0) && AllWhitespace(st.w1) && AllWhitespace(st.w2) && AllWhitespace(st.w3)
  }

  /** The name of a constant: it starts with a D and is in capitals. */
  ghost predicate IsName(name: string) {
    name != "" && name[0] == 'D' && forall i :: 0 <= i < |name| ==> 'A' <= name[i] <= '_' && name[i] != '\\'
  }

  lemma {:induction false} TrimStartKeeps(a: string, b: string)
    requires b != "" && !IsWhitespace(b[0])
    ensures TrimStart(a + b) == TrimStart(a) + b
  {
    if a == "" {
      assert a + b == b;
    } else if IsWhitespace(a[0]) {
      SplitConcat(a, b, 1);
      TrimStartKeeps(a[1..], b);
    }
  }

  /** The value is found behind its constant, however the line is spaced. */
  lemma ValueFollows(st: Style, v: string)
    requires StyleOk(st)
    ensures Quoted(AtValue(Between(st) + Literal(st, v))) == Some(v)
  {
    var lit := [st.q] + Literal(st, v);
    AtLiteral(st, Literal(st, v), lit);
    assert lit[1..] == Literal(st, v);
    UnquoteEscaped(v, st.q, st.tail);
  }

  lemma AtLiteral(st: Style, rest: string, lit: string)
    requires StyleOk(st) && lit == [st.q] + rest
    ensures AtValue(Between(st) + rest) == lit
  {
    var r3 := st.w3 + lit;
    var r2 := st.w2 + ([','] + r3);
    assert Between(st) + rest == [st.q] + r2;
    StripClosingOne(st.q, r2);
    TrimStartSkips(st.w2, [','] + r3);
    assert ([','] + r3)[1..] == r3;
    NoComma(st.w3, lit);
    TrimStartSkips(st.w3, lit);
  }

  lemma StripClosingOne(q: char, r: string)
    requires IsQuote(q)
    requires r != "" && r[0] != ')' && !IsQuote(r[0])
    ensures StripClosing(TrimStart([q] + r)) == r
  {
    assert ([q] + r)[1..] == r;
  }

  lemma NoComma(w: string, r: string)
    requires AllWhitespace(w) && r != "" && r[0] != ','
    ensures StripCommas(w + r) == w + r
  {
    assert w == "" ==> w + r == r;
  }

  ghost predicate NoCapitalD(s: string) {
    forall i :: 0 <= i < |s| ==> s[i] != 'D'
  }

  lemma {:induction false} SkipText(text: string, rest: string, name: string)
    requires NoCapitalD(text) && IsName(name)
    ensures Behind(text + rest, name) == Behind(rest, name)
  {
    if text == "" {
      assert text + rest == rest;
    } else {
      assert (text + rest)[0] == text[0] != name[0];
      SplitConcat(text, rest, 1);
      SkipText(text[1..], rest, name);
    }
  }

  lemma BehindName(name: string, rest: string)
    ensures Behind(name + rest, name) == Some(rest)
  {
  }

  lemma PrefixOfConcat(p: string, a: string, b: string)
    ensures p <= a + b ==> p <= a || (|p| > |a| && b != "" && p[|a|] == b[0])
  {
    if p <= a + b {
      if |p| <= |a| {
        assert p == (a + b)[..|p|] == a[..|p|];
      } else {
        assert p[|a|] == (a + b)[|a|];
      }
    }
  }

  ghost predicate NoSpecial(w: string) {
    forall k :: 0 <= k < |w| ==> !IsQuote(w[k]) && w[k] != '\\'
  }

  /** A constant is not found across a character that no name has. */
  lemma {:induction false} SkipFree(text: string, rest: string, name: string)
    requires IsName(name) && !Contains(text, name) && rest != "" && (IsQuote(rest[0]) || rest[0] == 'd')
    ensures Behind(text + rest, name) == Behind(rest, name)
  {
    PrefixOfConcat(name, text, rest);
    if text == "" {
      assert text + rest == rest;
    } else {
      SplitConcat(text, rest, 1);
      SkipFree(text[1..], rest, name);
    }
  }

  lemma {:induction false} BehindExtends(text: string, rest: string, name: string)
    requires Contains(text, name)
    ensures Behind(text + rest, name) == Some(Behind(text, name).value + rest)
  {
    if name <= text {
      SplitConcat(text, rest, |name|);
      assert (text + rest)[..|name|] == text[..|name|] == name;
    } else {
      SplitConcat(text, rest, 1);
      BehindExtends(text[1..], rest, name);
      PrefixOfConcat(name, text, rest);
      NotInFront(text, rest, name);
    }
  }

  /** An occurrence further on fits into the text, so one that starts earlier would too. */
  lemma NotInFront(text: string, rest: string, name: string)
    requires Contains(text, name)
    ensures name <= text + rest ==> name <= text
  {
    ContainsIsNoLonger(text, name);
    PrefixOfConcat(name, text, rest);
  }

  lemma ContainsIsNoLonger(text: string, name: string)
    requires Contains(text, name)
    ensures |name| <= |text|
  {
    if !(name <= text) {
      ContainsIsNoLonger(text[1..], name);
    }
  }

  /** Indentation does not matter. */
  lemma {:induction false} BehindTrimmed(s: string, name: string)
    requires IsName(name)
    ensures Behind(TrimStart(s), name) == Behind(s, name)
  {
    if s != "" && IsWhitespace(s[0]) {
      BehindTrimmed(s[1..], name);
    }
  }

  // What `find_define` makes of the text between a constant and the `define` of the same line.

  lemma {:induction false} StripClosingKeeps(a: string, b: string)
    requires b != "" && b[0] == 'd'
    ensures StripClosing(a + b) == StripClosing(a) + b
  {
    if a == "" {
      assert a + b == b;
    } else {
      SplitConcat(a, b, 1);
      StripClosingKeeps(a[1..], b);
    }
  }

  lemma {:induction false} StripCommasKeeps(a: string, b: string)
    requires b != "" && b[0] == 'd'
    ensures StripCommas(a + b) == StripCommas(a) + b
  {
    if a == "" {
      assert a + b == b;
    } else {
      SplitConcat(a, b, 1);
      StripCommasKeeps(a[1..], b);
    }
  }

  lemma AtValueKeeps(a: string, b: string)
    requires b != "" && b[0] == 'd'
    ensures AtValue(a + b) == AtValue(a) + b
  {
    TrimStartKeeps(a, b);
    StripClosingKeeps(TrimStart(a), b);
    TrimStartKeeps(StripClosing(TrimStart(a)), b);
    StripCommasKeeps(TrimStart(StripClosing(TrimStart(a))), b);
    TrimStartKeeps(StripCommas(TrimStart(StripClosing(TrimStart(a)))), b);
  }

  lemma {:induction false} QuotedBehind(a: string, q: char, rest: string)
    requires NoQuotes(a) && IsQuote(q)
    ensures Quoted(a + ([q] + rest)) == Unquote(rest, q, false)
  {
    if a == "" {
      assert a + ([q] + rest) == [q] + rest && ([q] + rest)[1..] == rest;
    } else {
      SplitConcat(a, [q] + rest, 1);
      QuotedBehind(a[1..], q, rest);
    }
  }

  lemma {:induction false} EscapeOfName(name: string, q: char)
    requires NoSpecial(name) && IsQuote(q)
    ensures Escape(name, q) == name
  {
    if name != "" {
      EscapeOfName(name[1..], q);
    }
  }

  /** The quoted name itself. */
  lemma NameIsQuoted(text: string, st: Style, name: string, rest: string)
    requires StyleOk(st) && NoQuotes(text) && NoSpecial(name)
    ensures Quoted(text + (DefineWord(st) + (name + ([st.q] + rest)))) == Some(name)
  {
    var word := "define" + st.w0 + "(" + st.w1;
    var more := name + ([st.q] + rest);
    assert NoQuotes(word);
    Assoc(text, word, [st.q] + more);
    Assoc(word, [st.q], more);
    assert NoQuotes(text + word);
    QuotedBehind(text + word, st.q, more);
    EscapeOfName(name, st.q);
    UnquoteEscaped(name, st.q, rest);
  }

  /** The value does not mislead the search for another constant. */
  ghost predicate Harmless(v: string, other: string) {
    NoQuotes(v) || !Contains(v, other)
  }

  lemma {:induction false} StartsUnescaped(v: string, q: char, rest: string, w: string)
    requires IsQuote(q) && NoSpecial(w) && w <= Escape(v, q) + ([q] + rest)
    ensures w <= v
  {
    if w != "" {
      var e := Escape(v, q) + ([q] + rest);
      assert e[0] == w[0];
      assert v != "" && v[0] == w[0];
      OneInFront(v[0], Escape(v[1..], q), [q] + rest);
      assert w[1..] <= e[1..];
      StartsUnescaped(v[1..], q, rest, w[1..]);
      assert w == [w[0]] + w[1..] && v == [v[0]] + v[1..];
    }
  }

  lemma {:induction false} SkipValue(v: string, q: char, rest: string, other: string)
    requires IsQuote(q) && IsName(other) && !Contains(v, other)
    ensures Behind(Escape(v, q) + ([q] + rest), other) == Behind([q] + rest, other)
  {
    var end := [q] + rest;
    var e := Escape(v, q) + end;
    if v == "" {
      assert e == end;
    } else {
      if other <= e {
        StartsUnescaped(v, q, rest, other);
      }
      SkipValue(v[1..], q, rest, other);
      if v[0] == q || v[0] == '\\' {
        TwoInFront('\\', v[0], Escape(v[1..], q), end);
        assert e[1..][0] != other[0];
      } else {
        OneInFront(v[0], Escape(v[1..], q), end);
      }
    }
  }

  lemma EscapeOfPlain(v: string, q: char)
    requires NoQuotes(v) && IsQuote(q)
    ensures NoQuotes(Escape(v, q))
  {
    if v != "" {
      EscapeOfPlain(v[1..], q);
    }
  }

  ghost predicate IsSuffix(b: string, a: string) {
    |b| <= |a| && b == a[|a| - |b|..]
  }

  lemma SuffixOfSuffix(c: string, b: string, a: string)
    requires IsSuffix(c, b) && IsSuffix(b, a)
    ensures IsSuffix(c, a)
  {
    DropTwice(a, |a| - |b|, |b| - |c|);
  }

  lemma StripClosingIsSuffix(a: string)
    ensures IsSuffix(StripClosing(a), a)
  {
    if a != "" && (a[0] == ')' || IsQuote(a[0])) {
      StripClosingIsSuffix(a[1..]);
      SuffixOfSuffix(StripClosing(a[1..]), a[1..], a);
    }
  }

  lemma StripCommasIsSuffix(a: string)
    ensures IsSuffix(StripCommas(a), a)
  {
    if a != "" && a[0] == ',' {
      StripCommasIsSuffix(a[1..]);
      SuffixOfSuffix(StripCommas(a[1..]), a[1..], a);
    }
  }

  lemma TrimStartIsSuffix(a: string)
    ensures IsSuffix(TrimStart(a), a)
  {
    if a != "" && IsWhitespace(a[0]) {
      TrimStartIsSuffix(a[1..]);
      SuffixOfSuffix(TrimStart(a[1..]), a[1..], a);
    }
  }

  lemma AtValueIsSuffix(a: string)
    ensures IsSuffix(AtValue(a), a)
  {
    var t1 := TrimStart(a);
    var t2 := StripClosing(t1);
    var t3 := TrimStart(t2);
    var t4 := StripCommas(t3);
    TrimStartIsSuffix(a);
    StripClosingIsSuffix(t1);
    SuffixOfSuffix(t2, t1, a);
    TrimStartIsSuffix(t2);
    SuffixOfSuffix(t3, t2, a);
    StripCommasIsSuffix(t3);
    SuffixOfSuffix(t4, t3, a);
    TrimStartIsSuffix(t4);
    SuffixOfSuffix(TrimStart(t4), t4, a);
  }

  lemma NothingAtValue(a: string)
    requires AtMostOneQuote(a)
    ensures Quoted(AtValue(a)) == None
  {
    AtValueIsSuffix(a);
    NothingQuoted(AtValue(a));
  }

  lemma BehindIsSuffix(s: string, p: string)
    ensures Behind(s, p).Some? ==> IsSuffix(Behind(s, p).value, s)
  {
    if !(p <= s) && s != "" {
      BehindIsSuffix(s[1..], p);
      if Behind(s, p).Some? {
        SuffixOfSuffix(Behind(s, p).value, s[1..], s);
      }
    }
  }

  /** The text leads to no value of the constant. */
  ghost predicate NoValueFor(s: string, other: string) {
    match Behind(s, other)
    case None => true
    case Some(after) => Quoted(AtValue(after)) == None
  }

  lemma NoValueBehind(s: string, other: string)
    requires AtMostOneQuote(s)
    ensures NoValueFor(s, other)
  {
    BehindIsSuffix(s, other);
    if Behind(s, other).Some? {
      NothingAtValue(Behind(s, other).value);
    }
  }

  lemma NoValueInLiteral(st: Style, v: string, other: string)
    requires StyleOk(st) && NoQuotes(st.tail) && IsName(other) && Harmless(v, other)
    ensures NoValueFor(Literal(st, v), other)
  {
    if NoQuotes(v) {
      EscapeOfPlain(v, st.q);
      NoValueBehind(Literal(st, v), other);
    } else {
      SkipValue(v, st.q, st.tail, other);
      NoValueBehind([st.q] + st.tail, other);
    }
  }

  predicate IsSkipped(trimmed: string) {
    IsComment(trimmed) || HasPrefix(trimmed, "*")
  }

  lemma ContainsPart(a: string, p: string, b: string)
    ensures Contains(a + (p + b), p)
  {
    if a == "" {
      assert a + (p + b) == p + b;
    } else {
      ContainsPart(a[1..], p, b);
      SplitConcat(a, p + b, 1);
    }
  }

  /** The line without its indentation. */
  lemma TrimmedDefine(st: Style, name: string, v: string)
    ensures var t := TrimStart(RenderDefine(st, name, v));
            && t == DefineHead(st, TrimStart(st.lead)) + (name + (Between(st) + Literal(st, v)))
            && Contains(t, "define")
            && IsSkipped(t) == IsSkipped(TrimStart(st.lead))
  {
    var head := "define" + st.w0 + "(" + st.w1 + [st.q];
    var rest := name + (Between(st) + Literal(st, v));
    var lead := TrimStart(st.lead);
    Assoc(st.lead, head, rest);
    TrimStartKeeps(st.lead, head + rest);
    Assoc(lead, head, rest);
    var more := st.w0 + "(" + st.w1 + [st.q] + rest;
    assert head + rest == "define" + more;
    ContainsPart(lead, "define", more);
    SameStart(lead, "define" + more);
  }

  lemma SameStart(lead: string, rest: string)
    requires rest != "" && rest[0] == 'd'
    ensures IsSkipped(lead + rest) == IsSkipped(lead)
  {
    var t := lead + rest;
    assert HasPrefix(t, "//") == HasPrefix(lead, "//") by {
      if HasPrefix(t, "//") {
        assert t[0] == '/' && t[1] == '/';
        assert |lead| >= 2 && lead[0] == '/' && lead[1] == '/';
      }
    }
    assert t[0] == if lead == "" then 'd' else lead[0];
  }

  lemma NoDConcat(a: string, b: string)
    requires NoCapitalD(a) && NoCapitalD(b)
    ensures NoCapitalD(a + b)
  {
  }

  lemma WordHasNoD(st: Style)
    requires StyleOk(st)
    ensures NoCapitalD(DefineWord(st))
  {
    NoDConcat("define", st.w0);
    NoDConcat("define" + st.w0, "(");
    NoDConcat("define" + st.w0 + "(", st.w1);
    NoDConcat("define" + st.w0 + "(" + st.w1, [st.q]);
  }

  lemma BetweenHasNoD(st: Style)
    requires StyleOk(st)
    ensures NoCapitalD(Between(st))
  {
    NoDConcat(st.w3, [st.q]);
    NoDConcat([','], st.w3 + [st.q]);
    NoDConcat(st.w2, [','] + (st.w3 + [st.q]));
    NoDConcat([st.q], st.w2 + ([','] + (st.w3 + [st.q])));
  }

  /** The line from its `define` on. */
  function DefineText(st: Style, name: string, v: string): string {
    DefineWord(st) + (name + (Between(st) + Literal(st, v)))
  }

  /** What the reader makes of a definition, for any text in front. It is skipped as a comment, or
      it defines its constant; unless the constant occurs in front: then the next quoted string
      behind that first occurrence is taken for the value, which is the constant's own name if no
      string comes in between. */
  lemma DefineLine(st: Style, name: string, v: string)
    requires StyleOk(st) && IsName(name)
    ensures DefineIn(RenderDefine(st, name, v), name)
         == if var t := TrimStart(st.lead); "//" <= t || "#" <= t || "*" <= t then None
            else
              match Behind(st.lead, name)
              case None => Some(v)
              case Some(b) => if NoQuotes(AtValue(b)) then Some(name) else Quoted(AtValue(b) + DefineText(st, name, v))
  {
    TrimmedDefine(st, name, v);
    var lead, text := TrimStart(st.lead), DefineText(st, name, v);
    BehindTrimmed(st.lead, name);
    Assoc(lead, DefineWord(st), name + (Between(st) + Literal(st, v)));
    assert text[0] == 'd';
    match Behind(st.lead, name) {
      case None => PlainDefine(st, name, v, lead);
      case Some(b) =>
        BehindExtends(lead, text, name);
        AtValueKeeps(b, text);
        if NoQuotes(AtValue(b)) {
          Assoc([st.q], st.w2 + ([','] + (st.w3 + [st.q])), Literal(st, v));
          NameIsQuoted(AtValue(b), st, name, st.w2 + ([','] + (st.w3 + [st.q])) + Literal(st, v));
        }
    }
  }

  lemma PlainDefine(st: Style, name: string, v: string, lead: string)
    requires StyleOk(st) && IsName(name) && !Contains(lead, name)
    ensures Behind(lead + DefineText(st, name, v), name) == Some(Between(st) + Literal(st, v))
    ensures Quoted(AtValue(Between(st) + Literal(st, v))) == Some(v)
  {
    var rest := Between(st) + Literal(st, v);
    assert DefineText(st, name, v)[0] == 'd';
    SkipFree(lead, DefineText(st, name, v), name);
    WordHasNoD(st);
    SkipText(DefineWord(st), name + rest, name);
    BehindName(name, rest);
    ValueFollows(st, v);
  }

  /** The usual guard: the reader takes the constant's name for its value. */
  lemma GuardedDefine(st: Style, name: string, v: string)
    requires StyleOk(st) && IsName(name) && st.lead == "defined('" + name + "') or "
    ensures DefineIn(RenderDefine(st, name, v), name) == Some(name)
  {
    var b := "') or ";
    Assoc("defined('", name, b);
    SkipText("defined('", name + b, name);
    BehindName(name, b);
    assert st.lead[0] == 'd' && TrimStart(st.lead) == st.lead;
    GuardEnds(b);
    DefineLine(st, name, v);
  }

  lemma GuardEnds(b: string)
    requires b == "') or "
    ensures NoQuotes(AtValue(b))
  {
    assert b[1..] == ") or " && b[1..][1..] == " or " && " or "[1..] == "or ";
    assert StripClosing(" or ") == " or " && StripClosing(") or ") == " or ";
    assert TrimStart(b) == b && StripClosing(b) == " or ";
    assert TrimStart("or ") == "or " && TrimStart(" or ") == "or ";
    assert StripCommas("or ") == "or ";
  }

  /** The line defines no other constant that it does not name in front. */
  lemma DefinesNothingElse(st: Style, name: string, v: string, other: string)
    requires StyleOk(st) && IsName(other) && !Contains(st.lead, other)
    requires !Contains(name, other) && Harmless(v, other) && NoQuotes(st.tail)
    ensures DefineIn(RenderDefine(st, name, v), other) == None
  {
    TrimmedDefine(st, name, v);
    BehindTrimmed(st.lead, other);
    WordHasNoD(st);
    BetweenHasNoD(st);
    var lead, between, lit := TrimStart(st.lead), Between(st), Literal(st, v);
    Assoc(lead, DefineWord(st), name + (between + lit));
    assert DefineText(st, name, v)[0] == 'd';
    SkipFree(lead, DefineText(st, name, v), other);
    SkipText(DefineWord(st), name + (between + lit), other);
    SkipFree(name, between + lit, other);
    SkipText(between, lit, other);
    NoValueInLiteral(st, v, other);
  }

  lemma PrefixDefinesNothing(st: Style, v: string, other: string)
    requires StyleOk(st) && NoQuotes(st.tail) && AllWhitespace(st.lead) && IsName(other) && Harmless(v, other)
    ensures DefineIn(RenderPrefix(st, v), other) == None
  {
    var front, lit := PrefixHead(st), Literal(st, v);
    TrimStartSkips(st.lead, front + lit);
    assert NoCapitalD(front);
    SkipText(front, lit, other);
    NoValueInLiteral(st, v, other);
  }

  lemma PrefixLine(st: Style, v: string)
    requires StyleOk(st) && AllWhitespace(st.lead)
    ensures PrefixIn(RenderPrefix(st, v)) == Some(Some(v))
  {
    var lit := [st.q] + Literal(st, v);
    var r2 := "=" + (st.w1 + lit);
    BehindPrefix(RenderPrefix(st, v), st, st.w0 + r2) by {
      assert PrefixHead(st) + Literal(st, v) == "$table_prefix" + (st.w0 + r2);
    }
    TrimStartSkips(st.w0, r2);
    assert r2[1..] == st.w1 + lit;
    TrimStartSkips(st.w1, lit);
    assert lit[1..] == Literal(st, v);
    UnquoteEscaped(v, st.q, st.tail);
  }

  lemma BehindPrefix(line: string, st: Style, rest: string)
    requires line == st.lead + ("$table_prefix" + rest) && AllWhitespace(st.lead)
    ensures PrefixIn(line) == if HasPrefix(TrimStart(rest), "=") then Some(Quoted(TrimStart(TrimStart(rest)[1..]))) else Some(None)
  {
    var word := "$table_prefix";
    BehindWord(word, rest);
    TrimStartSkips(st.lead, word + rest);
  }

  lemma BehindWord(word: string, rest: string)
    requires word != "" && word[0] == '$'
    ensures (word + rest)[|word|..] == rest && word <= word + rest && !IsComment(word + rest)
    ensures word + rest != "" && !IsWhitespace((word + rest)[0])
  {
    assert (word + rest)[0] == '$';
  }

  lemma DefineIsNoPrefix(st: Style, name: string, v: string)
    requires !HasPrefix(TrimStart(st.lead), "$table_prefix")
    ensures PrefixIn(RenderDefine(st, name, v)) == None
  {
    TrimmedDefine(st, name, v);
    var lead, text := TrimStart(st.lead), DefineText(st, name, v);
    Assoc(lead, DefineWord(st), name + (Between(st) + Literal(st, v)));
    assert text[0] == 'd';
    assert 'd' !in "$table_prefix";
    PrefixOfConcat("$table_prefix", lead, text);
  }

  // ---------------------------------------------------------------------------------------
  // Whole files
  // ---------------------------------------------------------------------------------------

  datatype DbConfig = DbConfig(name: string, user: string, password: string, host: string, prefix: string)

  datatype Key = Name | User | Password | Host

  function Constant(k: Key): string {
    match k
    case Name => "DB_NAME"
    case User => "DB_USER"
    case Password => "DB_PASSWORD"
    case Host => "DB_HOST"
  }

  function UnwrapOr(o: Option<string>, default: string): string {
    match o
    case None => default
    case Some(v) => v
  }

  /** The configuration that the lines of a file define; `names` are the four constants. */
  function Parsed(lines: seq<string>, names: Key -> string): Option<DbConfig> {
    var name, user := FirstIn(lines, DefinedAs(names(Name))), FirstIn(lines, DefinedAs(names(User)));
    if name.None? || user.None? then None
    else
      Some(DbConfig(name.value, user.value,
                    UnwrapOr(FirstIn(lines, DefinedAs(names(Password))), ""),
                    UnwrapOr(FirstIn(lines, DefinedAs(names(Host))), "localhost"),
                    UnwrapOr(TablePrefix(lines), "wp_")))
  }

  method ParseDbConfig(contents: string) returns (r: Option<DbConfig>)
    ensures r == Parsed(Lines(contents), Constant)
  {
    var lines := Lines(contents);
    var name := FindDefine(lines, Constant(Name));
    if name.None? {
      return None;
    }
    var user := FindDefine(lines, Constant(User));
    if user.None? {
      return None;
    }
    var password := FindDefine(lines, Constant(Password));
    var host := FindDefine(lines, Constant(Host));
    var prefix := FindTablePrefix(lines);
    r := Some(DbConfig(name.value, user.value, UnwrapOr(password, ""), UnwrapOr(host, "localhost"), UnwrapOr(prefix, "wp_")));
  }

  /** A line: it holds no line end and does not end in a carriage return. */
  ghost predicate IsLine(l: string) {
    '\n' !in l && (l != "" ==> l[|l| - 1] != '\r')
  }

  function LineEnd(crlf: bool): string {
    if crlf then "\r\n" else "\n"
  }

  function Join(lines: seq<string>, crlf: bool): string {
    if lines == [] then "" else (lines[0] + LineEnd(crlf)) + Join(lines[1..], crlf)
  }

  lemma LinesOfBody(body: string, rest: string)
    requires '\n' !in body
    ensures Lines(body + ("\n" + rest)) == [StripCr(body)] + Lines(rest)
  {
    var s := body + ("\n" + rest);
    assert s[|body|] == '\n' && s[..|body|] == body && s[|body| + 1..] == rest;
    LengthOfLine(body, rest);
  }

  lemma LengthOfLine(body: string, rest: string)
    requires '\n' !in body
    ensures LineLength(body + ("\n" + rest)) == |body|
  {
    if body == "" {
      assert body + ("\n" + rest) == "\n" + rest;
    } else {
      SplitConcat(body, "\n" + rest, 1);
      LengthOfLine(body[1..], rest);
    }
  }

  lemma FirstLine(l: string, crlf: bool, rest: string)
    requires IsLine(l)
    ensures Lines((l + LineEnd(crlf)) + rest) == [l] + Lines(rest)
  {
    if crlf {
      assert (l + LineEnd(crlf)) + rest == (l + "\r") + ("\n" + rest);
      LinesOfBody(l + "\r", rest);
      assert StripCr(l + "\r") == l;
    } else {
      Assoc(l, LineEnd(crlf), rest);
      LinesOfBody(l, rest);
    }
  }

  lemma {:induction false} LinesOfJoin(lines: seq<string>, crlf: bool)
    requires forall l :: l in lines ==> IsLine(l)
    ensures Lines(Join(lines, crlf)) == lines
  {
    if lines != [] {
      LinesOfJoin(lines[1..], crlf);
      FirstLine(lines[0], crlf, Join(lines[1..], crlf));
    }
  }

  lemma SameLength(a: string, b: string)
    requires a != "" && a[|a| - 1] == '\n'
    ensures LineLength(a + b) == LineLength(a) < |a|
  {
    if a[0] != '\n' {
      SplitConcat(a, b, 1);
      SameLength(a[1..], b);
    }
  }

  lemma {:induction false} LinesConcat(a: string, b: string)
    requires a == "" || a[|a| - 1] == '\n'
    ensures Lines(a + b) == Lines(a) + Lines(b)
    decreases |a|
  {
    if a == "" {
      assert a + b == b;
    } else {
      var i := LineLength(a);
      SameLength(a, b);
      SplitConcat(a, b, i);
      SplitConcat(a, b, i + 1);
      LinesConcat(a[i + 1..], b);
      Assoc([StripCr(a[..i])], Lines(a[i + 1..]), Lines(b));
    }
  }

  lemma {:induction false} InsertSilent<T>(x: seq<string>, c: string, y: seq<string>, f: string -> Option<T>)
    requires f(c) == None
    ensures FirstIn(x + ([c] + y), f) == FirstIn(x + y, f)
  {
    if x == [] {
      assert x + ([c] + y) == [c] + y && x + y == y && ([c] + y)[1..] == y;
    } else {
      InsertSilent(x[1..], c, y, f);
      SplitConcat(x, [c] + y, 1);
      SplitConcat(x, y, 1);
      assert (x + ([c] + y))[0] == x[0] == (x + y)[0];
    }
  }

  /** A comment line at any line boundary of any file changes nothing. */
  lemma CommentsAreIgnored(a: string, comment: string, crlf: bool, b: string, names: Key -> string)
    requires a == "" || a[|a| - 1] == '\n'
    requires IsLine(comment)
    requires "//" <= TrimStart(comment) || "#" <= TrimStart(comment) || "*" <= TrimStart(comment)
    ensures Parsed(Lines(a + ((comment + LineEnd(crlf)) + b)), names) == Parsed(Lines(a + b), names)
  {
    LinesConcat(a, (comment + LineEnd(crlf)) + b);
    LinesConcat(a, b);
    FirstLine(comment, crlf, b);
    SilentLine(Lines(a), comment, Lines(b), names);
  }

  lemma SilentLine(x: seq<string>, line: string, y: seq<string>, names: Key -> string)
    requires IsSkipped(TrimStart(line))
    ensures Parsed(x + ([line] + y), names) == Parsed(x + y, names)
  {
    InsertSilent(x, line, y, DefinedAs(names(Name)));
    InsertSilent(x, line, y, DefinedAs(names(User)));
    InsertSilent(x, line, y, DefinedAs(names(Password)));
    InsertSilent(x, line, y, DefinedAs(names(Host)));
    InsertSilent(x, line, y, PrefixIn);
  }

  /** For the table prefix the comments are `//` and `#`; no other line than one that starts with
      `$table_prefix` counts. */
  lemma PrefixIgnoresOtherLines(x: seq<string>, line: string, y: seq<string>)
    requires var t := TrimStart(line); "//" <= t || "#" <= t || !("$table_prefix" <= t)
    ensures TablePrefix(x + ([line] + y)) == TablePrefix(x + y)
  {
    InsertSilent(x, line, y, PrefixIn);
  }

  // ---------------------------------------------------------------------------------------
  // Rendered configurations
  // ---------------------------------------------------------------------------------------

  datatype Entry =
    | Other(line: string)
    | Define(style: Style, key: Key)
    | Prefix(style: Style)

  function ValueOf(cfg: DbConfig, k: Key): string {
    match k
    case Name => cfg.name
    case User => cfg.user
    case Password => cfg.password
    case Host => cfg.host
  }

  function Render(e: Entry, cfg: DbConfig, names: Key -> string): string {
    match e
    case Other(line) => line
    case Define(st, k) => RenderDefine(st, names(k), ValueOf(cfg, k))
    case Prefix(st) => RenderPrefix(st, cfg.prefix)
  }

  function RenderAll(es: seq<Entry>, cfg: DbConfig, names: Key -> string): (r: seq<string>)
    ensures |r| == |es| && forall i :: 0 <= i < |es| ==> r[i] == Render(es[i], cfg, names)
  {
    seq(|es|, i requires 0 <= i < |es| => Render(es[i], cfg, names))
  }

  /** One line, in any style, that sets an option of `cfg` to a value which does not mislead the
      search for the other constants; or a line that sets nothing. */
  ghost predicate EntryOk(e: Entry, cfg: DbConfig, names: Key -> string) {
    && IsLine(Render(e, cfg, names))
    && match e
       case Other(line) => PrefixIn(line) == None && forall k :: DefineIn(line, names(k)) == None
       case Define(st, k) =>
         && StyleOk(st) && NoQuotes(st.tail)
         && !("$table_prefix" <= TrimStart(st.lead))
         && !("//" <= TrimStart(st.lead)) && !("#" <= TrimStart(st.lead)) && !("*" <= TrimStart(st.lead))
         && (forall name :: !Contains(st.lead, names(name)))
         && forall other :: other != k ==> Harmless(ValueOf(cfg, k), names(other))
       case Prefix(st) =>
         && StyleOk(st) && NoQuotes(st.tail) && AllWhitespace(st.lead)
         && forall other :: Harmless(cfg.prefix, names(other))
  }

  ghost predicate AllOk(es: seq<Entry>, cfg: DbConfig, names: Key -> string) {
    es == [] || (AllOk(es[..|es| - 1], cfg, names) && EntryOk(es[|es| - 1], cfg, names))
  }

  lemma EachOk(es: seq<Entry>, cfg: DbConfig, names: Key -> string, i: nat)
    requires AllOk(es, cfg, names) && i < |es|
    ensures EntryOk(es[i], cfg, names)
  {
    if i < |es| - 1 {
      EachOk(es[..|es| - 1], cfg, names, i);
    }
  }

  ghost predicate NamesOk(names: Key -> string) {
    && (forall k :: IsName(names(k)))
    && forall k, other :: k != other ==> !Contains(names(k), names(other))
  }

  predicate Sets(es: seq<Entry>, k: Key) {
    es != [] && ((es[|es| - 1].Define? && es[|es| - 1].key == k) || Sets(es[..|es| - 1], k))
  }

  predicate SetsPrefix(es: seq<Entry>) {
    es != [] && (es[|es| - 1].Prefix? || SetsPrefix(es[..|es| - 1]))
  }

  lemma {:induction false} SetsSomewhere(es: seq<Entry>, k: Key)
    ensures Sets(es, k) <==> exists i :: 0 <= i < |es| && es[i].Define? && es[i].key == k
    ensures SetsPrefix(es) <==> exists i :: 0 <= i < |es| && es[i].Prefix?
  {
    if es != [] {
      var front := es[..|es| - 1];
      SetsSomewhere(front, k);
      assert forall i :: 0 <= i < |front| ==> front[i] == es[i];
    }
  }

  lemma EntryMeans(e: Entry, cfg: DbConfig, names: Key -> string, k: Key)
    requires NamesOk(names) && EntryOk(e, cfg, names)
    ensures DefineIn(Render(e, cfg, names), names(k))
         == if e.Define? && e.key == k then Some(ValueOf(cfg, k)) else None
    ensures PrefixIn(Render(e, cfg, names)) == if e.Prefix? then Some(Some(cfg.prefix)) else None
  {
    match e {
      case Other(_) =>
      case Define(st, key) =>
        var v := ValueOf(cfg, key);
        DefineIsNoPrefix(st, names(key), v);
        if key == k {
          DefineLine(st, names(k), v);
        } else {
          DefinesNothingElse(st, names(key), v, names(k));
        }
      case Prefix(st) =>
        PrefixLine(st, cfg.prefix);
        PrefixDefinesNothing(st, cfg.prefix, names(k));
    }
  }

  lemma {:induction false} AllAgree<T>(lines: seq<string>, f: string -> Option<T>, v: T)
    requires forall i :: 0 <= i < |lines| ==> f(lines[i]) == None || f(lines[i]) == Some(v)
    ensures FirstIn(lines, f) ==
            if exists i :: 0 <= i < |lines| && f(lines[i]) == Some(v) then Some(v) else None
  {
    if lines != [] {
      AllAgree(lines[1..], f, v);
      assert forall i :: 0 <= i < |lines[1..]| ==> lines[1..][i] == lines[i + 1];
      if i :| 0 <= i < |lines| && f(lines[i]) == Some(v) {
        assert i > 0 ==> lines[1..][i - 1] == lines[i];
      }
    }
  }

  lemma FoundAmong(es: seq<Entry>, cfg: DbConfig, names: Key -> string, k: Key)
    requires NamesOk(names) && AllOk(es, cfg, names)
    ensures FirstIn(RenderAll(es, cfg, names), DefinedAs(names(k)))
         == if Sets(es, k) then Some(ValueOf(cfg, k)) else None
    ensures FirstIn(RenderAll(es, cfg, names), PrefixIn)
         == if SetsPrefix(es) then Some(Some(cfg.prefix)) else None
  {
    var lines := RenderAll(es, cfg, names);
    var f, v := DefinedAs(names(k)), ValueOf(cfg, k);
    forall i | 0 <= i < |es|
      ensures f(lines[i]) == if es[i].Define? && es[i].key == k then Some(v) else None
      ensures PrefixIn(lines[i]) == if es[i].Prefix? then Some(Some(cfg.prefix)) else None
    {
      EachOk(es, cfg, names, i);
      EntryMeans(es[i], cfg, names, k);
    }
    AllAgree(lines, f, v);
    AllAgree(lines, PrefixIn, Some(cfg.prefix));
    SetsSomewhere(es, k);
    if Sets(es, k) {
      var i :| 0 <= i < |es| && es[i].Define? && es[i].key == k;
      assert f(lines[i]) == Some(v);
    }
    if SetsPrefix(es) {
      var i :| 0 <= i < |es| && es[i].Prefix?;
      assert PrefixIn(lines[i]) == Some(Some(cfg.prefix));
    }
  }

  lemma LinesOfRendered(es: seq<Entry>, cfg: DbConfig, crlf: bool, names: Key -> string)
    requires AllOk(es, cfg, names)
    ensures Lines(Join(RenderAll(es, cfg, names), crlf)) == RenderAll(es, cfg, names)
  {
    forall i | 0 <= i < |es|
      ensures IsLine(RenderAll(es, cfg, names)[i])
    {
      EachOk(es, cfg, names, i);
    }
    LinesOfJoin(RenderAll(es, cfg, names), crlf);
  }

  lemma ParsedIs(lines: seq<string>, names: Key -> string, cfg: DbConfig)
    requires FirstIn(lines, DefinedAs(names(Name))) == Some(cfg.name)
    requires FirstIn(lines, DefinedAs(names(User))) == Some(cfg.user)
    requires UnwrapOr(FirstIn(lines, DefinedAs(names(Password))), "") == cfg.password
    requires UnwrapOr(FirstIn(lines, DefinedAs(names(Host))), "localhost") == cfg.host
    requires UnwrapOr(TablePrefix(lines), "wp_") == cfg.prefix
    ensures Parsed(lines, names) == Some(cfg)
  {
  }

  lemma ConstantsAreNames()
    ensures NamesOk(Constant)
  {
    forall k: Key
      ensures IsName(Constant(k)) && |Constant(k)| >= 7
      ensures forall i :: 0 < i < |Constant(k)| - 6 ==> Constant(k)[i] != 'D'
      ensures Constant(k)[3] == match k case Name => 'N' case User => 'U' case Password => 'P' case Host => 'H'
    {
    }
    forall k, other: Key | k != other
      ensures !Contains(Constant(k), Constant(other))
    {
      NotInside(Constant(k), Constant(other));
    }
  }

  lemma {:induction false} NotInside(name: string, other: string)
    requires |other| >= 7 && other[0] == 'D'
    requires |name| >= 4 ==> other[3] != name[3]
    requires forall i :: 0 < i < |name| - 6 ==> name[i] != 'D'
    ensures !Contains(name, other)
  {
    if name != "" {
      NoLater(name[1..], other);
    }
  }

  lemma NoLater(name: string, other: string)
    requires |other| >= 7 && other[0] == 'D'
    requires forall i :: 0 <= i < |name| - 6 ==> name[i] != 'D'
    ensures !Contains(name, other)
  {
    if name != "" {
      NoLater(name[1..], other);
    }
  }

  /** What is written of `cfg`, and the defaults for the rest. */
  function Written(es: seq<Entry>, cfg: DbConfig): DbConfig {
    DbConfig(cfg.name, cfg.user,
             if Sets(es, Password) then cfg.password else "",
             if Sets(es, Host) then cfg.host else "localhost",
             if SetsPrefix(es) then cfg.prefix else "wp_")
  }

  /** Reading a rendered configuration gives back what was written, provided name and user were:
      in any order, in any style, between any lines that set nothing. */
  lemma RenderedIsRecovered(es: seq<Entry>, cfg: DbConfig, crlf: bool)
    requires AllOk(es, cfg, Constant)
    ensures Parsed(Lines(Join(RenderAll(es, cfg, Constant), crlf)), Constant)
         == if Sets(es, Name) && Sets(es, User) then Some(Written(es, cfg)) else None
  {
    ConstantsAreNames();
    LinesOfRendered(es, cfg, crlf, Constant);
    FoundAmong(es, cfg, Constant, Name);
    FoundAmong(es, cfg, Constant, User);
    FoundAmong(es, cfg, Constant, Password);
    FoundAmong(es, cfg, Constant, Host);
    if Sets(es, Name) && Sets(es, User) {
      ParsedIs(RenderAll(es, cfg, Constant), Constant, Written(es, cfg));
    }
  }

  lemma {:induction false} FirstOfConcat<T>(x: seq<string>, y: seq<string>, f: string -> Option<T>)
    ensures FirstIn(x + y, f) == if FirstIn(x, f).Some? then FirstIn(x, f) else FirstIn(y, f)
  {
    if x == [] {
      assert x + y == y;
    } else {
      SplitConcat(x, y, 1);
      assert (x + y)[0] == x[0];
      FirstOfConcat(x[1..], y, f);
    }
  }

  /** A commented-out definition, anywhere in a file, is passed over exactly if the comment is one
      of `//`, `#` or starts with `*`; behind a block comment's opening the old value wins over all
      later lines. */
  lemma CommentedOutDefinition(a: seq<string>, st: Style, name: string, v: string, b: seq<string>)
    requires StyleOk(st) && IsName(name) && !Contains(st.lead, name)
    ensures FirstIn(a + ([RenderDefine(st, name, v)] + b), DefinedAs(name))
         == if var t := TrimStart(st.lead); "//" <= t || "#" <= t || "*" <= t then FirstIn(a + b, DefinedAs(name))
            else if FirstIn(a, DefinedAs(name)).Some? then FirstIn(a, DefinedAs(name))
            else Some(v)
    ensures st.lead == "/* " ==> var t := TrimStart(st.lead); !("//" <= t) && !("#" <= t) && !("*" <= t)
  {
    var line := RenderDefine(st, name, v);
    DefineLine(st, name, v);
    if IsSkipped(TrimStart(st.lead)) {
      InsertSilent(a, line, b, DefinedAs(name));
    } else {
      FirstOfConcat(a, [line] + b, DefinedAs(name));
      assert ([line] + b)[0] == line;
    }
    if st.lead == "/* " {
      assert st.lead[0] == '/' && st.lead[1] == '*';
      assert TrimStart(st.lead) == st.lead;
    }
  }
}
