/** Token recognition of the POSIX shell (POSIX.1-2017, Shell Command Language, sections 2.2.1,
    2.2.2, 2.2.3, 2.3 and 2.4), as far as a pipeline of simple commands needs it. Every character
    that reaches a word remembers whether it was quoted: expansions only ever look at the
    unquoted ones. What starts an expansion, a here-document or contains NUL is `Unsupported`. */
module ShellLexer {
  import opened Text

  datatype QChar = QChar(c: char, quoted: bool)

  datatype Token =
    | Word(chars: seq<QChar>)
    | Operator(text: string)

  datatype Mode = Ground | InSingle | InDouble | DoubleEscape | Escape | Comment | Unsupported

  /** The token being read. */
  datatype Pending =
    | Nothing
    | WordSoFar(chars: seq<QChar>)
    | OperatorSoFar(text: string)

  datatype Lexer = Lexer(mode: Mode, pending: Pending, out: seq<Token>)

  const START := Lexer(Ground, Nothing, [])

  predicate IsOperator(s: string) {
    s in {"|", "&", ";", "<", ">", "(", ")", "\n",
          "||", "&&", ";;", "<<", ">>", "<&", ">&", "<>", "<<-", ">|"}
  }

  predicate StartsOperator(c: char) {
    c == '|' || c == '&' || c == ';' || c == '<' || c == '>' || c == '(' || c == ')' || c == '\n'
  }

  /** Ends the token being read. */
  function Delimit(lx: Lexer): Lexer {
    match lx.pending
    case Nothing => lx
    case WordSoFar(w) => lx.(pending := Nothing, out := lx.out + [Word(w)])
    case OperatorSoFar(op) =>
      lx.(mode := if op == "<<" || op == "<<-" then Unsupported else lx.mode,
          pending := Nothing, out := lx.out + [Operator(op)])
  }

  /** The word being read; an operator before it ends here. */
  function OpenWord(lx: Lexer): Lexer {
    if lx.pending.WordSoFar? then lx
    else Delimit(lx).(pending := WordSoFar([]))
  }

  function Append(lx: Lexer, c: char, quoted: bool): Lexer
    requires lx.pending.WordSoFar?
  {
    lx.(pending := WordSoFar(lx.pending.chars + [QChar(c, quoted)]))
  }

  /** One character in the unquoted state, section 2.3 rules 2 to 10. */
  function StepGround(lx: Lexer, c: char): Lexer {
    if lx.pending.OperatorSoFar? && IsOperator(lx.pending.text + [c]) then
      lx.(pending := OperatorSoFar(lx.pending.text + [c]))
    else if c == '\'' then OpenWord(lx).(mode := EnterUnless(lx, InSingle))
    else if c == '"' then OpenWord(lx).(mode := EnterUnless(lx, InDouble))
    else if c == '\\' then lx.(mode := Escape)
    else if c == '$' || c == '`' then lx.(mode := Unsupported)
    else if StartsOperator(c) then
      Delimit(lx).(pending := OperatorSoFar([c]))
    else if c == ' ' || c == '\t' then Delimit(lx)
    else if lx.pending.WordSoFar? then Append(lx, c, false)
    else if c == '#' then Delimit(lx).(mode := EnterUnless(lx, Comment))
    else Append(OpenWord(lx), c, false)
  }

  /** The mode entered by a character, unless it ended a here-document operator. */
  function EnterUnless(lx: Lexer, mode: Mode): Mode {
    if Delimit(lx).mode == Unsupported then Unsupported else mode
  }

  function Step(lx: Lexer, c: char): Lexer {
    if c == '\0' then lx.(mode := Unsupported)
    else
      match lx.mode
      case Unsupported => lx
      case Comment => if c == '\n' then StepGround(lx.(mode := Ground), c) else lx
      case InSingle =>
        if c == '\'' then lx.(mode := Ground)
        else if lx.pending.WordSoFar? then Append(lx, c, true) else lx
      case InDouble =>
        if c == '"' then lx.(mode := Ground)
        else if c == '\\' then lx.(mode := DoubleEscape)
        else if c == '$' || c == '`' then lx.(mode := Unsupported)
        else if lx.pending.WordSoFar? then Append(lx, c, true) else lx
      case DoubleEscape =>
        if c == '\n' || !lx.pending.WordSoFar? then lx.(mode := InDouble)
        else if c == '$' || c == '`' || c == '"' || c == '\\' then Append(lx, c, true).(mode := InDouble)
        else Append(Append(lx, '\\', true), c, true).(mode := InDouble)
      case Escape =>
        // Backslash-newline is a line continuation and starts no word.
        if c == '\n' then lx.(mode := Ground)
        else Append(OpenWord(lx), c, true).(mode := EnterUnless(lx, Ground))
      case Ground => StepGround(lx, c)
  }

  function Run(lx: Lexer, input: string): Lexer
    decreases |input|
  {
    if input == "" then lx else Run(Step(lx, input[0]), input[1..])
  }

  lemma {:induction false} RunConcat(lx: Lexer, a: string, b: string)
    ensures Run(lx, a + b) == Run(Run(lx, a), b)
    decreases |a|
  {
    if a == "" {
      assert a + b == b;
    } else {
      assert (a + b)[1..] == a[1..] + b;
      RunConcat(Step(lx, a[0]), a[1..], b);
    }
  }

  /** The tokens of a complete input; `None` when a quote is open or the input leaves this
      fragment of the language. */
  function Tokens(input: string): Option<seq<Token>> {
    var lx := Run(START, input);
    if lx.mode == Ground || lx.mode == Comment then
      var end := Delimit(lx);
      if end.mode == Unsupported then None else Some(end.out)
    else None
  }

  // ---------------------------------------------------------------------------------------
  // Pipelines
  // ---------------------------------------------------------------------------------------

  /** A word that no expansion changes: none of its unquoted characters is a pattern character
      or a tilde. Quote removal then yields its text. */
  predicate IsFixed(w: seq<QChar>) {
    forall i :: 0 <= i < |w| && !w[i].quoted ==> w[i].c !in {'*', '?', '[', '~'}
  }

  function TextOf(w: seq<QChar>): string {
    seq(|w|, i requires 0 <= i < |w| => w[i].c)
  }

  /** The reserved words of section 2.4. */
  const RESERVED := {"!", "{", "}", "case", "do", "done", "elif", "else", "esac", "fi", "for", "if", "in", "then",
                     "until", "while", "[[", "]]", "function", "select"}

  /** As the first word of a command, the word is neither an assignment nor reserved: a reserved
      word has no quoted character, and an assignment has an unquoted equals sign. */
  predicate NamesCommand(w: seq<QChar>) {
    && QChar('=', false) !in w
    && ((forall i :: 0 <= i < |w| ==> !w[i].quoted) ==> TextOf(w) !in RESERVED)
  }

  /** The argument vectors of a pipeline of simple commands without assignments, redirections,
      lists or expansions. */
  function Argvs(tokens: seq<Token>): Option<seq<seq<string>>> {
    if tokens == [] then Some([[]])
    else
      var front := Argvs(tokens[..|tokens| - 1]);
      if front.None? || front.value == [] then None
      else
        var last := |front.value| - 1;
        match tokens[|tokens| - 1]
        case Operator(op) => if op == "|" then Some(front.value + [[]]) else None
        case Word(w) =>
          if IsFixed(w) && (front.value[last] == [] ==> NamesCommand(w)) then
            Some(front.value[last := front.value[last] + [TextOf(w)]])
          else None
  }

  /** What `sh -c input` executes: one argument vector for each command of the pipeline. */
  function ParsePipeline(input: string): Option<seq<seq<string>>> {
    match Tokens(input)
    case None => None
    case Some(tokens) => Argvs(tokens)
  }
}

/** `shell_quote` and the shell fragments the agent builds with it. */
module Shell {
  import opened Text
  import opened ShellLexer

  /** `value.replace('\'', r"'\''")` */
  function ReplaceQuotes(value: string): string {
    if value == "" then ""
    else (if value[0] == '\'' then "'\\''" else [value[0]]) + ReplaceQuotes(value[1..])
  }

  function ShellQuote(value: string): string {
    "'" + ReplaceQuotes(value) + "'"
  }

  function Quoted(s: string): (w: seq<QChar>)
    ensures |w| == |s| && forall i :: 0 <= i < |s| ==> w[i] == QChar(s[i], true)
  {
    seq(|s|, i requires 0 <= i < |s| => QChar(s[i], true))
  }

  function Plain(s: string): (w: seq<QChar>)
    ensures |w| == |s| && forall i :: 0 <= i < |s| ==> w[i] == QChar(s[i], false)
  {
    seq(|s|, i requires 0 <= i < |s| => QChar(s[i], false))
  }

  ghost predicate NoNul(s: string) {
    '\0' !in s
  }

  lemma {:induction false} RunReplaced(lx: Lexer, s: string)
    requires lx.mode == InSingle && lx.pending.WordSoFar? && NoNul(s)
    ensures Run(lx, ReplaceQuotes(s)) == lx.(pending := WordSoFar(lx.pending.chars + Quoted(s)))
    decreases |s|
  {
    if s == "" {
      assert lx.pending.chars + Quoted(s) == lx.pending.chars;
    } else {
      var head := if s[0] == '\'' then "'\\''" else [s[0]];
      var next := Append(lx, s[0], true);
      assert Run(lx, head) == next by {
        if s[0] == '\'' {
          var l1 := Step(lx, '\'');
          var l2 := Step(l1, '\\');
          var l3 := Step(l2, '\'');
          var l4 := Step(l3, '\'');
          assert l4 == next;
          assert head[1..] == "\\''" && head[1..][1..] == "''" && head[1..][1..][1..] == "'";
          assert Run(l4, "") == l4;
          assert Run(l3, "'") == l4;
          assert Run(l2, "''") == l4;
          assert Run(l1, "\\''") == l4;
        } else {
          assert head[1..] == "";
        }
      }
      RunConcat(lx, head, ReplaceQuotes(s[1..]));
      RunReplaced(next, s[1..]);
      assert next.pending.chars + Quoted(s[1..]) == lx.pending.chars + Quoted(s);
    }
  }

  /** A state in which the text to come is not quoted and starts no here-document. */
  ghost predicate Ready(lx: Lexer) {
    && lx.mode == Ground
    && (lx.pending.OperatorSoFar? ==> lx.pending.text != "<<" && lx.pending.text != "<<-")
  }

  lemma NoLongerOperator(op: string, c: char)
    requires !StartsOperator(c) && (c == '-' ==> op != "<<")
    ensures !IsOperator(op + [c])
  {
    var s := op + [c];
    assert s[|s| - 1] == c && op == s[..|s| - 1];
  }

  /** The law of `shell_quote`: read in the unquoted state, the quoted value appends exactly
      the value to the current word, every character quoted, and leaves the lexer unquoted. */
  lemma {:induction false} QuoteIsLiteral(lx: Lexer, s: string)
    requires Ready(lx) && NoNul(s)
    ensures Run(lx, ShellQuote(s)) ==
            OpenWord(lx).(pending := WordSoFar(OpenWord(lx).pending.chars + Quoted(s)))
  {
    if lx.pending.OperatorSoFar? {
      NoLongerOperator(lx.pending.text, '\'');
    }
    var open := OpenWord(lx).(mode := InSingle);
    assert Step(lx, '\'') == open;
    RunReplaced(open, s);
    var inside := Run(open, ReplaceQuotes(s));
    RunConcat(lx, "'" + ReplaceQuotes(s), "'");
    RunConcat(lx, "'", ReplaceQuotes(s));
    assert "'"[1..] == "";
    assert Run(lx, "'") == open;
    assert Run(inside, "'") == inside.(mode := Ground);
  }

  /** Only NUL, which no argument of a process can carry, has no quoted form. */
  lemma QuoteIsOneWordIffNoNul(s: string)
    ensures Tokens(ShellQuote(s)) == Some([Word(Quoted(s))]) <==> NoNul(s)
  {
    if NoNul(s) {
      QuoteIsLiteral(START, s);
      assert OpenWord(START).pending.chars + Quoted(s) == Quoted(s);
      assert START.out + [Word(Quoted(s))] == [Word(Quoted(s))];
    } else {
      ReplaceKeeps(s);
      NulIsFatal(START, ShellQuote(s));
    }
  }

  lemma ReplaceKeeps(s: string)
    requires '\0' in s
    ensures '\0' in ReplaceQuotes(s)
  {
    if s[0] != '\0' {
      assert '\0' in s[1..];
      ReplaceKeeps(s[1..]);
    }
  }

  lemma NulIsFatal(lx: Lexer, s: string)
    requires '\0' in s || lx.mode == Unsupported
    ensures Run(lx, s).mode == Unsupported
    decreases |s|
  {
    if s != "" {
      if s[0] != '\0' && lx.mode != Unsupported {
        assert '\0' in s[1..];
      }
      NulIsFatal(Step(lx, s[0]), s[1..]);
    }
  }

  // ---------------------------------------------------------------------------------------
  // Pipelines with quoted arguments
  // ---------------------------------------------------------------------------------------

  /** A word of a format string: fixed text, fixed text followed by a `shell_quote`d value, or
      a quoted value alone. */
  datatype Item =
    | Bare(text: string)
    | Opt(flag: string, value: string)
    | Value(value: string)

  type Command = seq<Item>

  /** Characters without a meaning to the shell anywhere in a word. */
  predicate IsPlain(c: char) {
    'a' <= c <= 'z' || 'A' <= c <= 'Z' || '0' <= c <= '9' || c == '-' || c == '_' || c == '=' || c == '.' || c == '/'
  }

  ghost predicate AllPlain(t: string) {
    t != "" && forall i :: 0 <= i < |t| ==> IsPlain(t[i])
  }

  ghost predicate ItemOk(it: Item) {
    match it
    case Bare(t) => AllPlain(t)
    case Opt(f, v) => AllPlain(f) && NoNul(v)
    case Value(v) => NoNul(v)
  }

  /** What may begin a command. */
  ghost predicate FirstOk(it: Item) {
    match it
    case Bare(t) => '=' !in t && t !in RESERVED
    case Opt(f, v) => '=' !in f && (v == "" ==> f !in RESERVED)
    case Value(_) => true
  }

  ghost predicate CommandOk(c: Command) {
    c != [] && FirstOk(c[0]) && forall i :: 0 <= i < |c| ==> ItemOk(c[i])
  }

  ghost predicate PipelineOk(p: seq<Command>) {
    p != [] && forall i :: 0 <= i < |p| ==> CommandOk(p[i])
  }

  function RenderItem(it: Item): string {
    match it
    case Bare(t) => t
    case Opt(f, v) => f + ShellQuote(v)
    case Value(v) => ShellQuote(v)
  }

  function RenderCommand(c: Command): string {
    if c == [] then ""
    else if |c| == 1 then RenderItem(c[0])
    else RenderCommand(c[..|c| - 1]) + " " + RenderItem(c[|c| - 1])
  }

  function RenderPipeline(p: seq<Command>): string {
    if p == [] then ""
    else if |p| == 1 then RenderCommand(p[0])
    else RenderPipeline(p[..|p| - 1]) + " | " + RenderCommand(p[|p| - 1])
  }

  /** The argument an item stands for. */
  function Meaning(it: Item): string {
    match it
    case Bare(t) => t
    case Opt(f, v) => f + v
    case Value(v) => v
  }

  function ArgvOf(c: Command): seq<string> {
    if c == [] then [] else ArgvOf(c[..|c| - 1]) + [Meaning(c[|c| - 1])]
  }

  function Marked(it: Item): seq<QChar> {
    match it
    case Bare(t) => Plain(t)
    case Opt(f, v) => Plain(f) + Quoted(v)
    case Value(v) => Quoted(v)
  }

  lemma {:induction false} RunPlain(lx: Lexer, t: string)
    requires Ready(lx) && AllPlain(t)
    ensures Run(lx, t) == OpenWord(lx).(pending := WordSoFar(OpenWord(lx).pending.chars + Plain(t)))
    decreases |t|
  {
    if lx.pending.OperatorSoFar? {
      NoLongerOperator(lx.pending.text, t[0]);
    }
    var next := Step(lx, t[0]);
    assert next == Append(OpenWord(lx), t[0], false);
    if |t| == 1 {
      assert t[1..] == "";
      assert Run(next, t[1..]) == next;
      assert OpenWord(lx).pending.chars + Plain(t) == next.pending.chars;
    } else {
      RunPlain(next, t[1..]);
      assert next.pending.chars + Plain(t[1..]) == OpenWord(lx).pending.chars + Plain(t);
    }
  }

  lemma RunItem(lx: Lexer, it: Item)
    requires Ready(lx) && !lx.pending.WordSoFar? && ItemOk(it)
    ensures Run(lx, RenderItem(it)) == OpenWord(lx).(pending := WordSoFar(Marked(it)))
  {
    match it {
      case Bare(t) =>
        RunPlain(lx, t);
        assert [] + Plain(t) == Plain(t);
      case Opt(f, v) =>
        RunConcat(lx, f, ShellQuote(v));
        RunPlain(lx, f);
        assert [] + Plain(f) == Plain(f);
        QuoteIsLiteral(Run(lx, f), v);
      case Value(v) =>
        QuoteIsLiteral(lx, v);
        assert [] + Quoted(v) == Quoted(v);
    }
  }

  function WordTokens(c: Command): seq<Token> {
    if c == [] then [] else WordTokens(c[..|c| - 1]) + [Word(Marked(c[|c| - 1]))]
  }

  /** After reading `text` from `lx` a word is pending and `tokens` were delivered. */
  ghost predicate Delivers(lx: Lexer, text: string, tokens: seq<Token>) {
    var end := Run(lx, text);
    && end.mode == Ground && end.pending.WordSoFar?
    && Delimit(end).out == Delimit(lx).out + tokens
  }

  lemma {:induction false} RunCommand(lx: Lexer, c: Command)
    requires Ready(lx) && !lx.pending.WordSoFar? && CommandOk(c)
    ensures Delivers(lx, RenderCommand(c), WordTokens(c))
  {
    var front, last := c[..|c| - 1], c[|c| - 1];
    if |c| == 1 {
      RunItem(lx, last);
      assert WordTokens(c) == [Word(Marked(last))];
    } else {
      RunCommand(lx, front);
      DeliverGapItem(lx, RenderCommand(front), WordTokens(front), last);
    }
  }

  lemma DeliverGapItem(lx: Lexer, text: string, tokens: seq<Token>, it: Item)
    requires Delivers(lx, text, tokens) && ItemOk(it)
    ensures Delivers(lx, text + " " + RenderItem(it), tokens + [Word(Marked(it))])
  {
    var mid := Run(lx, text);
    RunConcat(lx, text + " ", RenderItem(it));
    RunConcat(lx, text, " ");
    assert Run(mid, " ") == Delimit(mid) by {
      assert " "[1..] == "";
    }
    RunItem(Delimit(mid), it);
    Assoc(Delimit(lx).out, tokens, [Word(Marked(it))]);
  }

  function PipelineTokens(p: seq<Command>): seq<Token> {
    if p == [] then []
    else if |p| == 1 then WordTokens(p[0])
    else PipelineTokens(p[..|p| - 1]) + [Operator("|")] + WordTokens(p[|p| - 1])
  }

  lemma {:induction false} RunPipeline(p: seq<Command>)
    requires PipelineOk(p)
    ensures Delivers(START, RenderPipeline(p), PipelineTokens(p))
  {
    var front, last := p[..|p| - 1], p[|p| - 1];
    if |p| == 1 {
      RunCommand(START, last);
    } else {
      RunPipeline(front);
      DeliverBarCommand(RenderPipeline(front), PipelineTokens(front), last);
    }
  }

  lemma DeliverBarCommand(text: string, tokens: seq<Token>, c: Command)
    requires Delivers(START, text, tokens) && CommandOk(c)
    ensures Delivers(START, text + " | " + RenderCommand(c), tokens + [Operator("|")] + WordTokens(c))
  {
    RunConcat(START, text + " | ", RenderCommand(c));
    RunConcat(START, text, " | ");
    RunBar(Run(START, text));
    RunCommand(Run(START, text + " | "), c);
    Assoc(Delimit(START).out, tokens, [Operator("|")]);
    Assoc(Delimit(START).out, tokens + [Operator("|")], WordTokens(c));
  }

  lemma RunBar(lx: Lexer)
    requires lx.mode == Ground && lx.pending.WordSoFar?
    ensures var end := Run(lx, " | ");
            && end.mode == Ground && end.pending.Nothing?
            && end.out == Delimit(lx).out + [Operator("|")]
  {
    var l1 := Step(lx, ' ');
    var l2 := Step(l1, '|');
    NoLongerOperator("|", ' ');
    var l3 := Step(l2, ' ');
    assert " | "[1..] == "| " && "| "[1..] == " " && " "[1..] == "";
    assert Run(l3, "") == l3;
    assert Run(l2, " ") == l3;
    assert Run(l1, "| ") == l3;
  }

  lemma MarkedMeans(it: Item)
    requires ItemOk(it)
    ensures IsFixed(Marked(it)) && TextOf(Marked(it)) == Meaning(it)
  {
    match it {
      case Bare(t) =>
      case Opt(f, v) => assert TextOf(Plain(f) + Quoted(v)) == f + v;
      case Value(v) =>
    }
  }

  lemma {:induction false} FirstNames(it: Item)
    requires ItemOk(it) && FirstOk(it)
    ensures NamesCommand(Marked(it))
  {
    var w := Marked(it);
    match it {
      case Bare(t) => assert TextOf(w) == t;
      case Opt(f, v) =>
        assert v == "" ==> TextOf(w) == f;
        assert v != "" ==> w[|f|].quoted;
      case Value(v) =>
        assert v != "" ==> w[0].quoted;
        assert v == "" ==> TextOf(w) == "";
    }
  }

  lemma ArgvsWord(ts: seq<Token>, vs: seq<seq<string>>, argv: seq<string>, w: seq<QChar>)
    requires Argvs(ts) == Some(vs + [argv]) && IsFixed(w) && (argv == [] ==> NamesCommand(w))
    ensures Argvs(ts + [Word(w)]) == Some(vs + [argv + [TextOf(w)]])
  {
    var longer := ts + [Word(w)];
    assert longer[..|longer| - 1] == ts;
    var front := vs + [argv];
    assert front[|front| - 1 := argv + [TextOf(w)]] == vs + [argv + [TextOf(w)]];
  }

  lemma {:induction false} ArgvsAppend(ts: seq<Token>, vs: seq<seq<string>>, c: Command)
    requires (c != [] ==> FirstOk(c[0])) && forall i :: 0 <= i < |c| ==> ItemOk(c[i])
    requires Argvs(ts) == Some(vs + [[]])
    ensures Argvs(ts + WordTokens(c)) == Some(vs + [ArgvOf(c)])
  {
    if c == [] {
      assert ts + [] == ts;
    } else {
      var front, last := c[..|c| - 1], c[|c| - 1];
      ArgvsAppend(ts, vs, front);
      MarkedMeans(last);
      if front == [] {
        FirstNames(last);
      }
      ArgvsWord(ts + WordTokens(front), vs, ArgvOf(front), Marked(last));
      Assoc(ts, WordTokens(front), [Word(Marked(last))]);
    }
  }

  lemma CommandArgvs(c: Command)
    requires CommandOk(c)
    ensures Argvs(WordTokens(c)) == Some([ArgvOf(c)])
  {
    var none: seq<seq<string>> := [];
    assert none + [[]] == [[]];
    ArgvsAppend([], none, c);
    assert [] + WordTokens(c) == WordTokens(c);
    assert none + [ArgvOf(c)] == [ArgvOf(c)];
  }

  function AllArgvs(p: seq<Command>): seq<seq<string>> {
    if p == [] then []
    else if |p| == 1 then [ArgvOf(p[0])]
    else AllArgvs(p[..|p| - 1]) + [ArgvOf(p[|p| - 1])]
  }

  lemma {:induction false} PipelineArgvs(p: seq<Command>)
    requires PipelineOk(p)
    ensures Argvs(PipelineTokens(p)) == Some(AllArgvs(p)) && AllArgvs(p) != []
  {
    var front, last := p[..|p| - 1], p[|p| - 1];
    if |p| == 1 {
      CommandArgvs(last);
    } else {
      PipelineArgvs(front);
      ArgvsBar(PipelineTokens(front), AllArgvs(front));
      ArgvsAppend(PipelineTokens(front) + [Operator("|")], AllArgvs(front), last);
    }
  }

  lemma ArgvsBar(ts: seq<Token>, vs: seq<seq<string>>)
    requires Argvs(ts) == Some(vs) && vs != []
    ensures Argvs(ts + [Operator("|")]) == Some(vs + [[]])
  {
    var longer := ts + [Operator("|")];
    assert longer[..|longer| - 1] == ts;
  }

  lemma NothingBefore(tokens: seq<Token>)
    ensures Delimit(START).out + tokens == tokens
  {
  }

  /** Every pipeline written as fixed words and `shell_quote`d values means the same commands
      with the values as literal text, whatever the values contain. */
  lemma PipelineMeansItsItems(p: seq<Command>)
    requires PipelineOk(p)
    ensures ParsePipeline(RenderPipeline(p)) == Some(AllArgvs(p))
  {
    RunPipeline(p);
    PipelineArgvs(p);
    NothingBefore(PipelineTokens(p));
  }

  // ---------------------------------------------------------------------------------------
  // The two commands of the agent
  // ---------------------------------------------------------------------------------------

  datatype DbLogin = DbLogin(name: string, user: string, password: string, host: string)

  ghost predicate LoginOk(d: DbLogin) {
    NoNul(d.name) && NoNul(d.user) && NoNul(d.password) && NoNul(d.host)
  }

  /** Host without the `:port` suffix. */
  function HostOnly(host: string): (r: string)
    ensures r <= host && ':' !in r && (r == host || host[|r|] == ':')
  {
    FindChar(host, ':');
    match Find(host, ":") case Some(i) => host[..i] case None => host
  }

  /** Port from `host:port`, if one was given. */
  function Port(host: string): Option<string> {
    match Find(host, ":") case Some(i) => Some(host[i + 1..]) case None => None
  }

  function DumpItems(src: DbLogin): Command {
    [Bare("mysqldump"), Bare("--single-transaction"), Bare("--quick"), Bare("--no-tablespaces"),
     Opt("--host=", HostOnly(src.host))]
    + (match Port(src.host) case Some(port) => [Opt("--port=", port)] case None => [])
    + [Opt("--user=", src.user), Opt("--password=", src.password), Value(src.name)]
  }

  function LoadItems(dst: DbLogin): Command {
    [Bare("mysql"), Opt("--host=", dst.host), Opt("--user=", dst.user),
     Opt("--password=", dst.password), Value(dst.name)]
  }

  function RemoteDumpItems(db: DbLogin, port: string): Command {
    [Bare("mysqldump"), Opt("--host=", db.host), Opt("--port=", port), Opt("--user=", db.user),
     Opt("--password=", db.password), Bare("--single-transaction"), Bare("--quick"), Value(db.name)]
  }

  /** The database copy of `site::clone`, run by `sh -c`. */
  function CloneCommand(src: DbLogin, dst: DbLogin): string {
    RenderCommand(DumpItems(src)) + " | " + RenderCommand(LoadItems(dst))
  }

  /** The dump command of `import`, run by the remote shell. */
  function RemoteDumpCommand(db: DbLogin, port: string): string {
    RenderCommand(RemoteDumpItems(db, port))
  }

  lemma FixedWordsArePlain()
    ensures AllPlain("mysqldump") && AllPlain("--single-transaction") && AllPlain("--quick")
    ensures AllPlain("--no-tablespaces") && AllPlain("mysql")
    ensures AllPlain("--host=") && AllPlain("--port=") && AllPlain("--user=") && AllPlain("--password=")
  {
  }

  lemma ProgramsNameCommands()
    ensures FirstOk(Bare("mysqldump")) && FirstOk(Bare("mysql"))
  {
    assert "mysqldump"[0] == "mysql"[0] == 'm';
  }

  lemma {:induction false} ArgvIs(c: Command, argv: seq<string>)
    requires |c| == |argv| && forall i :: 0 <= i < |c| ==> Meaning(c[i]) == argv[i]
    ensures ArgvOf(c) == argv
  {
    if c != [] {
      ArgvIs(c[..|c| - 1], argv[..|c| - 1]);
      assert argv == argv[..|c| - 1] + [argv[|c| - 1]];
    }
  }

  lemma OneCommand(c: Command)
    requires CommandOk(c)
    ensures ParsePipeline(RenderCommand(c)) == Some([ArgvOf(c)])
  {
    PipelineMeansItsItems([c]);
  }

  lemma TwoCommands(c: Command, d: Command)
    requires CommandOk(c) && CommandOk(d)
    ensures ParsePipeline(RenderCommand(c) + " | " + RenderCommand(d)) == Some([ArgvOf(c), ArgvOf(d)])
  {
    PipelineMeansItsItems([c, d]);
    RenderTwo([c, d]);
  }

  lemma RenderTwo(p: seq<Command>)
    requires |p| == 2
    ensures RenderPipeline(p) == RenderCommand(p[0]) + " | " + RenderCommand(p[1])
    ensures AllArgvs(p) == [ArgvOf(p[0]), ArgvOf(p[1])]
  {
    var front := p[..1];
    assert RenderPipeline(front) == RenderCommand(p[0]);
    assert AllArgvs(front) == [ArgvOf(p[0])];
  }

  function DumpArgv(src: DbLogin): seq<string> {
    ["mysqldump", "--single-transaction", "--quick", "--no-tablespaces", "--host=" + HostOnly(src.host)]
    + (match Port(src.host) case Some(port) => ["--port=" + port] case None => [])
    + ["--user=" + src.user, "--password=" + src.password, src.name]
  }

  function LoadArgv(dst: DbLogin): seq<string> {
    ["mysql", "--host=" + dst.host, "--user=" + dst.user, "--password=" + dst.password, dst.name]
  }

  function RemoteDumpArgv(db: DbLogin, port: string): seq<string> {
    ["mysqldump", "--host=" + db.host, "--port=" + port, "--user=" + db.user,
     "--password=" + db.password, "--single-transaction", "--quick", db.name]
  }

  lemma ArgvOfConcat(c: Command, d: Command)
    ensures ArgvOf(c + d) == ArgvOf(c) + ArgvOf(d)
    decreases |d|
  {
    if d == [] {
      assert c + d == c;
    } else {
      assert (c + d)[..|c + d| - 1] == c + d[..|d| - 1];
      ArgvOfConcat(c, d[..|d| - 1]);
      Assoc(ArgvOf(c), ArgvOf(d[..|d| - 1]), [Meaning(d[|d| - 1])]);
    }
  }

  lemma DumpMeans(src: DbLogin)
    ensures ArgvOf(DumpItems(src)) == DumpArgv(src)
  {
    var head := [Bare("mysqldump"), Bare("--single-transaction"), Bare("--quick"), Bare("--no-tablespaces"),
                 Opt("--host=", HostOnly(src.host))];
    var port := match Port(src.host) case Some(port) => [Opt("--port=", port)] case None => [];
    var login := [Opt("--user=", src.user), Opt("--password=", src.password), Value(src.name)];
    ArgvIs(head, ["mysqldump", "--single-transaction", "--quick", "--no-tablespaces", "--host=" + HostOnly(src.host)]);
    ArgvIs(port, match Port(src.host) case Some(port) => ["--port=" + port] case None => []);
    ArgvIs(login, ["--user=" + src.user, "--password=" + src.password, src.name]);
    ArgvOfConcat(head, port);
    ArgvOfConcat(head + port, login);
  }

  lemma DumpIsCommand(src: DbLogin)
    requires LoginOk(src)
    ensures CommandOk(DumpItems(src))
  {
    FixedWordsArePlain();
    ProgramsNameCommands();
  }

  lemma LoadIsCommand(dst: DbLogin)
    requires LoginOk(dst)
    ensures CommandOk(LoadItems(dst))
  {
    FixedWordsArePlain();
    ProgramsNameCommands();
  }

  /** Whatever the credentials contain, `sh -c` runs `mysqldump` piped into `mysql` with the
      credentials as literal arguments. */
  lemma ClonePipelineIsFixed(src: DbLogin, dst: DbLogin)
    requires LoginOk(src) && LoginOk(dst)
    ensures ParsePipeline(CloneCommand(src, dst)) == Some([DumpArgv(src), LoadArgv(dst)])
  {
    DumpIsCommand(src);
    LoadIsCommand(dst);
    TwoCommands(DumpItems(src), LoadItems(dst));
    DumpMeans(src);
    ArgvIs(LoadItems(dst), LoadArgv(dst));
  }

  lemma RemoteIsCommand(db: DbLogin, port: string)
    requires LoginOk(db) && NoNul(port)
    ensures CommandOk(RemoteDumpItems(db, port))
  {
    FixedWordsArePlain();
    ProgramsNameCommands();
  }

  /** The same for the dump the remote shell runs during an import. */
  lemma RemoteDumpIsFixed(db: DbLogin, port: string)
    requires LoginOk(db) && NoNul(port)
    ensures ParsePipeline(RemoteDumpCommand(db, port)) == Some([RemoteDumpArgv(db, port)])
  {
    RemoteIsCommand(db, port);
    OneCommand(RemoteDumpItems(db, port));
    ArgvIs(RemoteDumpItems(db, port), RemoteDumpArgv(db, port));
  }

  /** The first colon separates host and port. */
  lemma SplitAtColon(host: string, port: string)
    requires ':' !in host
    ensures HostOnly(host + (":" + port)) == host && Port(host + (":" + port)) == Some(port)
  {
    var s := host + (":" + port);
    assert OccursAt(s, ":", |host|);
    forall j | 0 <= j < |host|
      ensures !OccursAt(s, ":", j)
    {
      assert s[j + 0] == host[j] != ":"[0];
    }
    FindIs(s, ":", |host|);
    assert s[..|host|] == host && s[|host| + 1..] == port;
  }

  lemma NoColon(host: string)
    requires ':' !in host
    ensures HostOnly(host) == host && Port(host) == None
  {
    FindChar(host, ':');
  }

  lemma ArgvWithPort(src: DbLogin, host: string, port: string)
    requires HostOnly(src.host) == host && Port(src.host) == Some(port)
    ensures DumpArgv(src) == ["mysqldump", "--single-transaction", "--quick", "--no-tablespaces", "--host=" + host,
                              "--port=" + port, "--user=" + src.user, "--password=" + src.password, src.name]
  {
  }

  lemma ArgvWithoutPort(src: DbLogin, host: string)
    requires HostOnly(src.host) == host && Port(src.host) == None
    ensures DumpArgv(src) == ["mysqldump", "--single-transaction", "--quick", "--no-tablespaces", "--host=" + host,
                              "--user=" + src.user, "--password=" + src.password, src.name]
  {
  }

  /** The `mysqldump` of a host with a port gets both, split at the first colon; `mysql` gets the
      target's host as it is. */
  lemma CloneWithPort(src: DbLogin, dst: DbLogin, host: string, port: string)
    requires LoginOk(src) && LoginOk(dst) && src.host == host + (":" + port) && ':' !in host
    ensures ParsePipeline(CloneCommand(src, dst)) == Some([
              ["mysqldump", "--single-transaction", "--quick", "--no-tablespaces", "--host=" + host, "--port=" + port,
               "--user=" + src.user, "--password=" + src.password, src.name],
              ["mysql", "--host=" + dst.host, "--user=" + dst.user, "--password=" + dst.password, dst.name]])
  {
    ClonePipelineIsFixed(src, dst);
    SplitAtColon(host, port);
    ArgvWithPort(src, host, port);
  }

  /** Without a colon there is no port argument. */
  lemma CloneWithoutPort(src: DbLogin, dst: DbLogin)
    requires LoginOk(src) && LoginOk(dst) && ':' !in src.host
    ensures ParsePipeline(CloneCommand(src, dst)) == Some([
              ["mysqldump", "--single-transaction", "--quick", "--no-tablespaces", "--host=" + src.host,
               "--user=" + src.user, "--password=" + src.password, src.name],
              ["mysql", "--host=" + dst.host, "--user=" + dst.user, "--password=" + dst.password, dst.name]])
  {
    ClonePipelineIsFixed(src, dst);
    NoColon(src.host);
    ArgvWithoutPort(src, src.host);
  }

  /** The dump of an import. */
  lemma RemoteDumpRuns(db: DbLogin, port: string)
    requires LoginOk(db) && NoNul(port)
    ensures ParsePipeline(RemoteDumpCommand(db, port)) == Some([
              ["mysqldump", "--host=" + db.host, "--port=" + port, "--user=" + db.user, "--password=" + db.password,
               "--single-transaction", "--quick", db.name]])
  {
    RemoteDumpIsFixed(db, port);
  }
}
