/** The grammar of the shell's commands (sh.c), and what a line means by it: a line stands for a text of the grammar
    when it spells the tokens of that text, with white space anywhere between them. The parser accepts exactly the
    lines that stand for a text with fewer than ten words in each simple command, and gives its tree. */
module ShellGrammar {
  import opened ShellSyntax

  /** The three redirections that can be written. */
  datatype Arrow = From | Onto | Append {
    function Text(): string {
      match this
      case From => "<"
      case Onto => ">"
      case Append => ">>"
    }

    function Mode(): Mode {
      if From? then In else Out
    }
  }

  function ArrowOf(m: Mode): Arrow {
    if m == In then From else Onto
  }

  /** A command with the strings themselves in place of pointers into the line. */
  datatype Tree =
    Run(argv: seq<string>) | To(cmd: Tree, file: string, arrow: Arrow) | Piped(left: Tree, right: Tree)
    | Then(left: Tree, right: Tree) | Aside(cmd: Tree)

  function Str(s: string, w: Span): string {
    if w.lo <= w.hi <= |s| then s[w.lo..w.hi] else ""
  }

  function Strs(s: string, ws: seq<Span>): (r: seq<string>)
    ensures |r| == |ws| && forall k :: 0 <= k < |ws| ==> r[k] == Str(s, ws[k])
  {
    seq(|ws|, k requires 0 <= k < |ws| => Str(s, ws[k]))
  }

  function Strings(s: string, c: Cmd): Tree {
    match c
    case Exec(argv) => Run(Strs(s, argv))
    case Redir(c1, file, mode) => To(Strings(s, c1), Str(s, file), ArrowOf(mode))
    case Pipe(l, r) => Piped(Strings(s, l), Strings(s, r))
    case List(l, r) => Then(Strings(s, l), Strings(s, r))
    case Back(c1) => Aside(Strings(s, c1))
  }

  // ----- tokens in a line -----

  ghost predicate Word(w: string) {
    w != "" && forall k :: 0 <= k < |w| ==> WordChar(w[k])
  }

  /** One of | & ; ( and ), a redirection, or a word. */
  datatype Tok = Sign(c: char) | Arr(arrow: Arrow) | Wd(word: string)

  function Text(t: Tok): string {
    match t
    case Sign(c) => [c]
    case Arr(a) => a.Text()
    case Wd(w) => w
  }

  ghost predicate TokOk(t: Tok) {
    match t
    case Sign(c) => c in "|&;()"
    case Arr(_) => true
    case Wd(w) => Word(w)
  }

  /** A token ends before c: a word does not go on, and > is not the first half of >>. */
  predicate EndsBefore(t: Tok, c: char) {
    match t
    case Sign(_) => true
    case Arr(a) => a.Onto? ==> c != '>'
    case Wd(_) => !WordChar(c)
  }

  ghost predicate Here(s: string, p: nat, x: string) {
    p + |x| <= |s| && s[p..p + |x|] == x
  }

  ghost predicate Blank(s: string, p: nat, q: nat) {
    p <= q <= |s| && forall k :: p <= k < q ==> s[k] in " \t\r\n\U{b}"
  }

  /** From p on, the line holds exactly these tokens, with white space around them. */
  ghost predicate Reads(s: string, p: nat, toks: seq<Tok>)
    decreases |toks|, 1
  {
    exists q: nat {:trigger ReadsAt(s, q, toks)} :: Blank(s, p, q) && ReadsAt(s, q, toks)
  }

  /** The same, with the first of them right at q. */
  ghost predicate ReadsAt(s: string, q: nat, toks: seq<Tok>)
    decreases |toks|, 0
  {
    if toks == [] then q == |s|
    else
      var e := q + |Text(toks[0])|;
      TokOk(toks[0]) && Here(s, q, Text(toks[0])) && EndsBefore(toks[0], Ch(s, e)) && Reads(s, e, toks[1..])
  }

  lemma {:induction false} HereAt(s: string, p: nat, x: string, k: nat)
    requires Here(s, p, x) && k < |x|
    ensures Ch(s, p + k) == x[k]
  {
    assert s[p..p + |x|][k] == s[p + k];
  }

  lemma {:induction false} SkipIs(s: string, p: nat, q: nat)
    requires Blank(s, p, q) && !White(Ch(s, q))
    ensures Skip(s, p) == q
    decreases q - p
  {
    if p < q {
      SkipIs(s, p + 1, q);
    }
  }

  /** The first character of the first token; NUL if there is none. */
  function First(toks: seq<Tok>): char {
    if toks == [] || Text(toks[0]) == "" then '\0' else Text(toks[0])[0]
  }

  lemma {:induction false} TokStart(t: Tok)
    requires TokOk(t)
    ensures Text(t) != "" && !White(Text(t)[0]) && Text(t)[0] != '\0' && (t.Wd? <==> WordChar(Text(t)[0]))
    ensures t.Sign? ==> Text(t)[0] in "|&;()"
    ensures t.Arr? ==> Text(t)[0] == if t.arrow.From? then '<' else '>'
  {
  }

  lemma {:induction false} ReadsStart(s: string, q: nat, toks: seq<Tok>)
    requires ReadsAt(s, q, toks)
    ensures q <= |s| && Ch(s, q) == First(toks) && !White(Ch(s, q)) && (First(toks) == '\0' <==> toks == [])
  {
    if toks != [] {
      TokStart(toks[0]);
      HereAt(s, q, Text(toks[0]), 0);
    }
  }

  /** peek skips to the first token and sees its first character. */
  lemma {:induction false} PeekIs(s: string, p: nat, toks: seq<Tok>)
    requires Reads(s, p, toks)
    ensures p <= |s| && ReadsAt(s, Skip(s, p), toks) && Reads(s, Skip(s, p), toks)
    ensures Ch(s, Skip(s, p)) == First(toks) && (First(toks) == '\0' <==> toks == [])
    ensures forall x: string {:trigger Peeks(s, p, x)} :: Peeks(s, p, x) <==> toks != [] && First(toks) in x
  {
    var q: nat :| Blank(s, p, q) && ReadsAt(s, q, toks);
    ReadsStart(s, q, toks);
    SkipIs(s, p, q);
    assert Blank(s, q, q);
  }

  /** What gettoken answers for a token. */
  function KindOf(t: Tok): char {
    match t
    case Sign(c) => c
    case Arr(a) => if a.From? then '<' else if a.Onto? then '>' else '+'
    case Wd(_) => 'a'
  }

  lemma {:induction false} WordEndIs(s: string, p: nat, e: nat)
    requires p <= e <= |s| && Line(s) && (forall k {:trigger s[k]} :: p <= k < e ==> WordChar(s[k]))
    requires !WordChar(Ch(s, e))
    ensures WordEnd(s, p) == e
    decreases e - p
  {
    if p < e {
      assert WordChar(s[p]);
      WordEndIs(s, p + 1, e);
    }
  }

  lemma {:induction false} TokenAt(s: string, q: nat, t: Tok)
    requires Line(s) && TokOk(t) && Here(s, q, Text(t)) && EndsBefore(t, Ch(s, q + |Text(t)|)) && Skip(s, q) == q
    ensures var e := q + |Text(t)|;
      && e <= |s| && GetToken(s, q) == Token(KindOf(t), q, e, Skip(s, e)) && Str(s, Span(q, e)) == Text(t)
  {
    TokStart(t);
    HereAt(s, q, Text(t), 0);
    match t
    case Wd(w) =>
      forall k {:trigger s[k]} | q <= k < q + |w| ensures WordChar(s[k]) {
        HereAt(s, q, w, k - q);
      }
      WordEndIs(s, q, q + |w|);
    case Arr(a) =>
      if a.Append? {
        HereAt(s, q, a.Text(), 1);
      }
    case Sign(c) =>
  }

  lemma {:induction false} ReadsFirst(s: string, q: nat, toks: seq<Tok>)
    requires toks != [] && ReadsAt(s, q, toks)
    ensures var e := q + |Text(toks[0])|;
      TokOk(toks[0]) && Here(s, q, Text(toks[0])) && EndsBefore(toks[0], Ch(s, e)) && Reads(s, e, toks[1..])
  {
  }

  /** gettoken gives the first token and moves to the next. */
  lemma {:induction false} TokenIs(s: string, p: nat, toks: seq<Tok>)
    requires Line(s) && toks != [] && Reads(s, p, toks)
    ensures p <= |s| && TokOk(toks[0])
    ensures var t := GetToken(s, p);
      && t.kind == KindOf(toks[0]) && Str(s, Span(t.q, t.eq)) == Text(toks[0]) && p < t.next <= |s|
      && Reads(s, t.next, toks[1..])
  {
    hide GetToken, Here, TokOk, EndsBefore, Reads, ReadsAt, Skip, Str, Peeks;
    PeekIs(s, p, toks);
    var q := Skip(s, p);
    ReadsFirst(s, q, toks);
    SkipTwice(s, p);
    TokStart(toks[0]);
    TokenAt(s, q, toks[0]);
    PeekIs(s, q + |Text(toks[0])|, toks[1..]);
  }

  // ----- the grammar -----

  datatype Red = Red(arrow: Arrow, file: string)

  /** A word of a simple command with the redirections behind it. */
  datatype Arg = Arg(word: string, reds: seq<Red>)

  datatype ExecText = Simple(reds: seq<Red>, args: seq<Arg>) | Group(line: LineText, reds: seq<Red>)

  datatype PipeText = One(exec: ExecText) | Bar(exec: ExecText, rest: PipeText)

  /** A pipeline with its ampersands, and perhaps a semicolon and more. */
  datatype LineText = End(pipe: PipeText, amps: nat) | Semi(pipe: PipeText, amps: nat, rest: LineText)

  // The tokens of each, in front of those in k.

  function RedToks(reds: seq<Red>, k: seq<Tok>): seq<Tok> {
    if reds == [] then k else [Arr(reds[0].arrow), Wd(reds[0].file)] + RedToks(reds[1..], k)
  }

  function ArgToks(args: seq<Arg>, k: seq<Tok>): seq<Tok> {
    if args == [] then k else [Wd(args[0].word)] + RedToks(args[0].reds, ArgToks(args[1..], k))
  }

  function ExecToks(x: ExecText, k: seq<Tok>): seq<Tok> {
    match x
    case Simple(reds, args) => RedToks(reds, ArgToks(args, k))
    case Group(line, reds) => [Sign('(')] + LineToks(line, [Sign(')')] + RedToks(reds, k))
  }

  function PipeToks(x: PipeText, k: seq<Tok>): seq<Tok> {
    match x
    case One(exec) => ExecToks(exec, k)
    case Bar(exec, rest) => ExecToks(exec, [Sign('|')] + PipeToks(rest, k))
  }

  function AmpToks(n: nat, k: seq<Tok>): seq<Tok> {
    if n == 0 then k else [Sign('&')] + AmpToks(n - 1, k)
  }

  function LineToks(x: LineText, k: seq<Tok>): seq<Tok> {
    match x
    case End(pipe, amps) => PipeToks(pipe, AmpToks(amps, k))
    case Semi(pipe, amps, rest) => PipeToks(pipe, AmpToks(amps, [Sign(';')] + LineToks(rest, k)))
  }

  // The tree of each.

  /** The redirections of a simple command behind its words, in order. */
  function ArgReds(args: seq<Arg>): seq<Red> {
    if args == [] then [] else args[0].reds + ArgReds(args[1..])
  }

  function Words(args: seq<Arg>): seq<string> {
    if args == [] then [] else [args[0].word] + Words(args[1..])
  }

  /** The tree with the redirections around it, the first innermost; >> is taken for >. */
  function Around(t: Tree, reds: seq<Red>): Tree
    decreases |reds|
  {
    if reds == [] then t else Around(To(t, reds[0].file, ArrowOf(reds[0].arrow.Mode())), reds[1..])
  }

  function ExecTree(x: ExecText): Tree {
    match x
    case Simple(reds, args) => Around(Run(Words(args)), reds + ArgReds(args))
    case Group(line, reds) => Around(LineTree(line), reds)
  }

  function PipeTree(x: PipeText): Tree {
    match x
    case One(exec) => ExecTree(exec)
    case Bar(exec, rest) => Piped(ExecTree(exec), PipeTree(rest))
  }

  function Asides(t: Tree, n: nat): Tree {
    if n == 0 then t else Aside(Asides(t, n - 1))
  }

  function LineTree(x: LineText): Tree {
    match x
    case End(pipe, amps) => Asides(PipeTree(pipe), amps)
    case Semi(pipe, amps, rest) => Then(Asides(PipeTree(pipe), amps), LineTree(rest))
  }

  // At most nine words in each simple command.

  predicate ExecShort(x: ExecText) {
    match x
    case Simple(_, args) => |args| < 10
    case Group(line, _) => LineShort(line)
  }

  predicate PipeShort(x: PipeText) {
    match x
    case One(exec) => ExecShort(exec)
    case Bar(exec, rest) => ExecShort(exec) && PipeShort(rest)
  }

  predicate LineShort(x: LineText) {
    match x
    case End(pipe, _) => PipeShort(pipe)
    case Semi(pipe, _, rest) => PipeShort(pipe) && LineShort(rest)
  }

  // ----- one production at a time -----

  /** The redirections of the parser are these. */
  ghost predicate Same(s: string, rs: seq<Redirect>, reds: seq<Red>) {
    && |rs| == |reds|
    && forall k {:trigger rs[k]} {:trigger reds[k]} :: 0 <= k < |rs| ==>
         Str(s, rs[k].file) == reds[k].file && rs[k].mode == reds[k].arrow.Mode()
  }

  /** parseredirs reads all the redirections there are. */
  lemma {:induction false} RedsRead(s: string, p: nat, reds: seq<Red>, k: seq<Tok>, rs: seq<Redirect>)
    returns (more: seq<Redirect>, e: nat)
    requires Line(s) && Reads(s, p, RedToks(reds, k)) && (k != [] ==> !k[0].Arr?)
    ensures p <= e <= |s| && ParseRedirs(s, p, rs) == Redirects(rs + more, e) && Same(s, more, reds) && Reads(s, e, k)
    decreases |reds|
  {
    hide Reads, ReadsAt, GetToken, Skip, Peeks, TokOk, Str;
    var toks := RedToks(reds, k);
    PeekIs(s, p, toks);
    if reds == [] {
      if k != [] {
        TokenIs(s, p, k);
        TokStart(k[0]);
      }
      more, e := [], Skip(s, p);
      assert rs + more == rs;
    } else {
      TokenIs(s, p, toks);
      TokStart(toks[0]);
      var tok := GetToken(s, p);
      TokenIs(s, tok.next, toks[1..]);
      var file := GetToken(s, tok.next);
      assert toks[1..][1..] == RedToks(reds[1..], k);
      var f := Redirect(Span(file.q, file.eq), reds[0].arrow.Mode());
      var rest;
      rest, e := RedsRead(s, file.next, reds[1..], k, rs + [f]);
      more := [f] + rest;
      assert rs + [f] + rest == rs + more;
    }
  }

  lemma {:induction false} AroundLast(t: Tree, reds: seq<Red>, f: Red)
    ensures Around(t, reds + [f]) == To(Around(t, reds), f.file, ArrowOf(f.arrow.Mode()))
    decreases |reds|
  {
    if reds == [] {
      assert (reds + [f])[1..] == [];
    } else {
      assert (reds + [f])[1..] == reds[1..] + [f];
      AroundLast(To(t, reds[0].file, ArrowOf(reds[0].arrow.Mode())), reds[1..], f);
    }
  }

  lemma {:induction false} WrapIsAround(s: string, c: Cmd, rs: seq<Redirect>, reds: seq<Red>)
    requires Same(s, rs, reds)
    ensures Strings(s, Wrap(c, rs)) == Around(Strings(s, c), reds)
    decreases |rs|
  {
    hide Around, Str;
    if rs == [] {
      assert Around(Strings(s, c), []) == Strings(s, c) by { AroundNone(Strings(s, c)); }
    } else {
      var n := |rs| - 1;
      WrapIsAround(s, c, rs[..n], reds[..n]);
      AroundLast(Strings(s, c), reds[..n], reds[n]);
      assert reds[..n] + [reds[n]] == reds;
      assert Wrap(c, rs) == Redir(Wrap(c, rs[..n]), rs[n].file, rs[n].mode);
    }
  }

  lemma {:induction false} AroundNone(t: Tree)
    ensures Around(t, []) == t
  {
  }

  /** What may follow a simple command. */
  predicate AfterExec(k: seq<Tok>) {
    k != [] ==> k[0].Sign? && k[0].c in "|)&;"
  }

  /** The loop of parseexec reads the words and the redirections between and behind them. */
  lemma {:induction false} ArgsRead(s: string, p: nat, args: seq<Arg>, k: seq<Tok>, argv: seq<Span>,
                                    rs: seq<Redirect>)
    returns (spans: seq<Span>, more: seq<Redirect>, e: nat)
    requires Line(s) && Reads(s, p, ArgToks(args, k)) && AfterExec(k) && |argv| < MAXARGS
    ensures p <= |s|
    ensures |argv| + |args| >= MAXARGS ==> ParseArgs(s, p, argv, rs) == Panic
    ensures |argv| + |args| < MAXARGS ==>
      && ParseArgs(s, p, argv, rs) == Ok(Wrap(Exec(argv + spans), rs + more), e) && p <= e <= |s|
      && Strs(s, spans) == Words(args) && Same(s, more, ArgReds(args)) && Reads(s, e, k)
    decreases |args|
  {
    hide Reads, ParseArgs, Str, Wrap, AfterExec, ArgToks, RedToks, Same;
    spans, more, e := [], [], p;
    if args == [] {
      NoArgToks(k);
      SameNone(s);
      e := ArgsDone(s, p, k, argv, rs);
      assert argv + spans == argv && rs + more == rs;
    } else {
      var w, more1, e1 := ArgRead(s, p, args, k, argv, rs);
      if |argv| + 1 < MAXARGS {
        var spans2, more2;
        spans2, more2, e := ArgsRead(s, e1, args[1..], k, argv + [w], rs + more1);
        spans, more := [w] + spans2, more1 + more2;
        assert argv + [w] + spans2 == argv + spans && rs + more1 + more2 == rs + more;
        assert Strs(s, spans) == [Str(s, w)] + Strs(s, spans2);
        if |argv| + |args| < MAXARGS {
          SameBoth(s, more1, args[0].reds, more2, ArgReds(args[1..]));
        }
      }
    }
  }

  lemma {:induction false} SameNone(s: string)
    ensures Same(s, [], [])
  {
  }

  lemma {:induction false} NoArgToks(k: seq<Tok>)
    ensures ArgToks([], k) == k
  {
  }

  lemma {:induction false} ArgRead(s: string, p: nat, args: seq<Arg>, k: seq<Tok>, argv: seq<Span>, rs: seq<Redirect>)
    returns (w: Span, more: seq<Redirect>, e: nat)
    requires Line(s) && args != [] && Reads(s, p, ArgToks(args, k)) && AfterExec(k)
    ensures p <= |s|
    ensures |argv| + 1 >= MAXARGS ==> ParseArgs(s, p, argv, rs) == Panic
    ensures |argv| + 1 < MAXARGS ==>
      && p <= e <= |s| && ParseArgs(s, p, argv, rs) == ParseArgs(s, e, argv + [w], rs + more)
      && Str(s, w) == args[0].word && Same(s, more, args[0].reds) && Reads(s, e, ArgToks(args[1..], k))
  {
    hide Reads, ReadsAt, GetToken, Skip, Peeks, TokOk, Str, Wrap, ParseRedirs, Same;
    var toks := ArgToks(args, k);
    PeekIs(s, p, toks);
    TokenIs(s, p, toks);
    TokStart(toks[0]);
    var tok := GetToken(s, p);
    assert toks[1..] == RedToks(args[0].reds, ArgToks(args[1..], k));
    more, e := RedsRead(s, tok.next, args[0].reds, ArgToks(args[1..], k), rs);
    w := Span(tok.q, tok.eq);
  }

  lemma {:induction false} ArgsDone(s: string, p: nat, k: seq<Tok>, argv: seq<Span>, rs: seq<Redirect>) returns (e: nat)
    requires Line(s) && Reads(s, p, k) && AfterExec(k)
    ensures p <= e <= |s| && ParseArgs(s, p, argv, rs) == Ok(Wrap(Exec(argv), rs), e) && Reads(s, e, k)
  {
    hide Reads, ReadsAt, Wrap, ParseRedirs;
    PeekIs(s, p, k);
    e := Skip(s, p);
    if k == [] {
      SkipTwice(s, p);
    }
  }

  /** The parser's answer: the tree, and a position before the tokens in k; or panic, if a command is too long. */
  ghost predicate Gives(s: string, r: Parsed, short: bool, t: Tree, k: seq<Tok>) {
    if short then r.Ok? && Strings(s, r.cmd) == t && Reads(s, r.pos, k) else r == Panic
  }

  lemma {:induction false} NoBlock(s: string, p: nat, x: ExecText, k: seq<Tok>)
    requires Line(s) && x.Simple? && Reads(s, p, ExecToks(x, k)) && AfterExec(k)
    ensures p <= |s| && !Peeks(s, p, "(") && ExecToks(x, k) == RedToks(x.reds, ArgToks(x.args, k))
    ensures ArgToks(x.args, k) != [] ==> !ArgToks(x.args, k)[0].Arr?
  {
    hide Reads, ReadsAt, Peeks, Skip, TokOk;
    var toks := ExecToks(x, k);
    PeekIs(s, p, toks);
    if toks != [] {
      TokenIs(s, p, toks);
      TokStart(toks[0]);
    }
  }

  lemma {:induction false} SameBoth(s: string, rs: seq<Redirect>, reds: seq<Red>, rs': seq<Redirect>, reds': seq<Red>)
    requires Same(s, rs, reds) && Same(s, rs', reds')
    ensures Same(s, rs + rs', reds + reds')
  {
  }

  lemma {:induction false} SimpleRead(s: string, p: nat, x: ExecText, k: seq<Tok>)
    requires Line(s) && x.Simple? && Reads(s, p, ExecToks(x, k)) && AfterExec(k)
    ensures p <= |s| && Gives(s, ParseExec(s, p), ExecShort(x), ExecTree(x), k)
  {
    hide Reads, Skip, Peeks, ParseArgs, ParseBlock, ParseRedirs, Str, Wrap, Around, Same, RedToks, ArgToks, Words;
    NoBlock(s, p, x, k);
    var rs, e1 := RedsRead(s, p, x.reds, ArgToks(x.args, k), []);
    assert [] + rs == rs;
    var spans, more, e := ArgsRead(s, e1, x.args, k, [], rs);
    if ExecShort(x) {
      assert [] + spans == spans;
      SameBoth(s, rs, x.reds, more, ArgReds(x.args));
      WrapIsAround(s, Exec(spans), rs + more, x.reds + ArgReds(x.args));
    }
  }

  /** What may follow a pipeline, and a line. */
  predicate AfterPipe(k: seq<Tok>) {
    AfterExec(k) && (k != [] ==> k[0].c != '|')
  }

  predicate AfterLine(k: seq<Tok>) {
    k != [] ==> k[0] == Sign(')')
  }

  lemma {:induction false} GroupRead(s: string, p: nat, x: ExecText, k: seq<Tok>)
    requires Line(s) && x.Group? && Reads(s, p, ExecToks(x, k)) && AfterExec(k)
    ensures p <= |s| && Gives(s, ParseExec(s, p), ExecShort(x), ExecTree(x), k)
    decreases x, 0
  {
    hide Reads, ReadsAt, GetToken, Skip, Peeks, ParseArgs, ParseLine, ParseRedirs, Str, Wrap, Around, TokOk, LineToks;
    var toks := ExecToks(x, k);
    var close := [Sign(')')] + RedToks(x.reds, k);
    PeekIs(s, p, toks);
    PeekIs(s, Skip(s, p), toks);
    TokenIs(s, Skip(s, p), toks);
    assert toks[1..] == LineToks(x.line, close);
    LineRead(s, GetToken(s, Skip(s, p)).next, x.line, close);
    var r := ParseLine(s, GetToken(s, Skip(s, p)).next);
    if LineShort(x.line) {
      PeekIs(s, r.pos, close);
      TokenIs(s, r.pos, close);
      var rs, e := RedsRead(s, GetToken(s, r.pos).next, x.reds, k, []);
      assert [] + rs == rs;
      WrapIsAround(s, r.cmd, rs, x.reds);
    }
  }

  lemma {:induction false} ExecRead(s: string, p: nat, x: ExecText, k: seq<Tok>)
    requires Line(s) && Reads(s, p, ExecToks(x, k)) && AfterExec(k)
    ensures p <= |s| && Gives(s, ParseExec(s, p), ExecShort(x), ExecTree(x), k)
    decreases x, 1
  {
    if x.Simple? {
      SimpleRead(s, p, x, k);
    } else {
      GroupRead(s, p, x, k);
    }
  }

  lemma {:induction false} PipeRead(s: string, p: nat, x: PipeText, k: seq<Tok>)
    requires Line(s) && Reads(s, p, PipeToks(x, k)) && AfterPipe(k)
    ensures p <= |s| && Gives(s, ParsePipe(s, p), PipeShort(x), PipeTree(x), k)
    decreases x
  {
    hide Reads, ReadsAt, GetToken, Skip, Peeks, ParseExec, TokOk, ExecToks, ExecShort, ExecTree;
    match x
    case One(exec) =>
      ExecRead(s, p, exec, k);
      if ExecShort(exec) {
        PeekIs(s, ParseExec(s, p).pos, k);
      }
    case Bar(exec, rest) =>
      var bar := [Sign('|')] + PipeToks(rest, k);
      ExecRead(s, p, exec, bar);
      if ExecShort(exec) {
        var p1 := ParseExec(s, p).pos;
        PeekIs(s, p1, bar);
        TokenIs(s, p1, bar);
        PipeRead(s, GetToken(s, p1).next, rest, k);
      }
  }

  lemma {:induction false} AmpsRead(s: string, p: nat, c: Cmd, n: nat, k: seq<Tok>)
    requires Line(s) && Reads(s, p, AmpToks(n, k)) && (k != [] ==> First(k) != '&')
    ensures p <= |s| && Gives(s, ParseBacks(s, p, c), true, Asides(Strings(s, c), n), k)
    decreases n
  {
    hide Reads, ReadsAt, GetToken, Skip, Peeks, TokOk;
    var toks := AmpToks(n, k);
    PeekIs(s, p, toks);
    if n > 0 {
      TokenIs(s, p, toks);
      AmpsRead(s, GetToken(s, p).next, Back(c), n - 1, k);
      AsideInside(Strings(s, c), n - 1);
    }
  }

  lemma {:induction false} AsideInside(t: Tree, n: nat)
    ensures Asides(Aside(t), n) == Aside(Asides(t, n))
  {
    if n > 0 {
      AsideInside(t, n - 1);
    }
  }

  lemma {:induction false} LineRead(s: string, p: nat, x: LineText, k: seq<Tok>)
    requires Line(s) && Reads(s, p, LineToks(x, k)) && AfterLine(k)
    ensures p <= |s| && Gives(s, ParseLine(s, p), LineShort(x), LineTree(x), k)
    decreases x
  {
    hide Reads, ReadsAt, GetToken, Skip, Peeks, ParsePipe, ParseBacks, TokOk, PipeToks, PipeShort, PipeTree;
    var k1 := if x.End? then k else [Sign(';')] + LineToks(x.rest, k);
    PipeRead(s, p, x.pipe, AmpToks(x.amps, k1));
    if PipeShort(x.pipe) {
      var r := ParsePipe(s, p);
      AmpsRead(s, r.pos, r.cmd, x.amps, k1);
      var b := ParseBacks(s, r.pos, r.cmd);
      PeekIs(s, b.pos, k1);
      if x.Semi? {
        TokenIs(s, b.pos, k1);
        LineRead(s, GetToken(s, b.pos).next, x.rest, k);
      }
    }
  }

  // ----- whatever the parser accepts is in the grammar -----

  /** The token at q, where there is one. */
  lemma {:induction false} SomeToken(s: string, q: nat) returns (t: Tok)
    requires Line(s) && q < |s| && !White(s[q])
    ensures TokOk(t) && Here(s, q, Text(t)) && Text(t) != "" && EndsBefore(t, Ch(s, q + |Text(t)|))
  {
    var c := s[q];
    if c == '<' {
      t := Arr(From);
    } else if c == '>' {
      t := Arr(if Ch(s, q + 1) == '>' then Append else Onto);
    } else if Symbol(c) {
      t := Sign(c);
    } else {
      t := Wd(s[q..WordEnd(s, q)]);
    }
  }

  /** Every line spells some tokens. */
  lemma {:induction false} SomeTokens(s: string, p: nat) returns (toks: seq<Tok>)
    requires Line(s) && p <= |s|
    ensures Reads(s, p, toks)
    decreases |s| - p
  {
    hide Here, TokOk, EndsBefore, Text;
    var q := Skip(s, p);
    assert Blank(s, p, q);
    toks := [];
    if q < |s| {
      var t := SomeToken(s, q);
      HereFits(s, q, Text(t));
      var rest := SomeTokens(s, q + |Text(t)|);
      toks := [t] + rest;
      assert toks[1..] == rest;
    }
    assert ReadsAt(s, q, toks);
  }

  lemma {:induction false} HereFits(s: string, p: nat, x: string)
    requires Here(s, p, x)
    ensures p + |x| <= |s|
  {
  }

  lemma {:induction false} NoToken(s: string, p: nat)
    requires Reads(s, p, [])
    ensures p <= |s| && GetToken(s, p).kind == '\0'
  {
    PeekIs(s, p, []);
  }

  /** Which token it is, from what gettoken answers. */
  lemma {:induction false} TokenWas(s: string, p: nat, toks: seq<Tok>)
    requires Line(s) && Reads(s, p, toks)
    ensures p <= |s| && var t := GetToken(s, p);
      && (t.kind == '\0' <==> toks == []) && (t.kind == 'a' <==> toks != [] && toks[0].Wd?)
      && (toks != [] ==> p < t.next <= |s| && Reads(s, t.next, toks[1..]))
  {
    hide Reads, ReadsAt, GetToken, Word;
    if toks == [] {
      NoToken(s, p);
    } else {
      TokenIs(s, p, toks);
    }
  }

  /** Which token peek saw. */
  lemma {:induction false} PeekWas(s: string, p: nat, toks: seq<Tok>)
    requires Line(s) && Reads(s, p, toks)
    ensures p <= |s| && (Peeks(s, p, "<>") <==> toks != [] && toks[0].Arr?)
    ensures Peeks(s, p, "(") <==> toks != [] && toks[0] == Sign('(')
    ensures Peeks(s, p, ")") <==> toks != [] && toks[0] == Sign(')')
    ensures Peeks(s, p, "|") <==> toks != [] && toks[0] == Sign('|')
    ensures Peeks(s, p, "&") <==> toks != [] && toks[0] == Sign('&')
    ensures Peeks(s, p, ";") <==> toks != [] && toks[0] == Sign(';')
    ensures Reads(s, Skip(s, p), toks) && (Skip(s, p) == |s| <==> toks == [])
  {
    hide Reads, ReadsAt, Peeks, Skip, Word;
    PeekIs(s, p, toks);
    if toks != [] {
      TokenIs(s, p, toks);
      TokStart(toks[0]);
    }
  }

  lemma {:induction false} RedsParsed(s: string, p: nat, toks: seq<Tok>, rs: seq<Redirect>)
    returns (reds: seq<Red>, k: seq<Tok>)
    requires Line(s) && Reads(s, p, toks)
    ensures p <= |s|
    ensures ParseRedirs(s, p, rs).Redirects? ==> toks == RedToks(reds, k) && Reads(s, ParseRedirs(s, p, rs).pos, k)
    decreases |toks|
  {
    hide Reads, ReadsAt, GetToken, Skip, Peeks, TokOk;
    PeekWas(s, p, toks);
    reds, k := [], toks;
    if toks != [] && toks[0].Arr? {
      TokenWas(s, p, toks);
      var tok := GetToken(s, p);
      TokenWas(s, tok.next, toks[1..]);
      var file := GetToken(s, tok.next);
      if file.kind == 'a' {
        var f := Redirect(Span(file.q, file.eq), if tok.kind == '<' then In else Out);
        var more;
        more, k := RedsParsed(s, file.next, toks[1..][1..], rs + [f]);
        reds := [Red(toks[0].arrow, toks[1].word)] + more;
        assert reds[1..] == more;
        assert toks == [toks[0], toks[1]] + toks[1..][1..];
      }
    }
  }

  lemma {:induction false} ArgsParsed(s: string, p: nat, toks: seq<Tok>, argv: seq<Span>, rs: seq<Redirect>)
    returns (args: seq<Arg>, k: seq<Tok>)
    requires Line(s) && Reads(s, p, toks)
    ensures p <= |s|
    ensures ParseArgs(s, p, argv, rs).Ok? ==> toks == ArgToks(args, k) && Reads(s, ParseArgs(s, p, argv, rs).pos, k)
    decreases |s| - p
  {
    hide Reads, ReadsAt, Skip, Peeks, TokOk, ParseRedirs, Wrap;
    PeekWas(s, p, toks);
    TokenWas(s, p, toks);
    args, k := [], toks;
    var tok := GetToken(s, p);
    if !Peeks(s, p, "|)&;") && toks != [] && toks[0].Wd? && |argv| + 1 < MAXARGS {
      var reds, k1 := RedsParsed(s, tok.next, toks[1..], rs);
      var r := ParseRedirs(s, tok.next, rs);
      if r.Redirects? {
        var more;
        more, k := ArgsParsed(s, r.pos, k1, argv + [Span(tok.q, tok.eq)], r.list);
        args := [Arg(toks[0].word, reds)] + more;
        assert args[1..] == more;
      }
    }
  }

  lemma {:induction false} ExecParsed(s: string, p: nat, toks: seq<Tok>) returns (x: ExecText, k: seq<Tok>)
    requires Line(s) && Reads(s, p, toks)
    ensures p <= |s| && (ParseExec(s, p).Ok? ==> toks == ExecToks(x, k) && Reads(s, ParseExec(s, p).pos, k))
    decreases |s| - p, 1
  {
    hide Reads, ReadsAt, GetToken, Skip, Peeks, TokOk, ParseRedirs, ParseArgs, ParseBlock;
    PeekWas(s, p, toks);
    if Peeks(s, p, "(") {
      x, k := BlockParsed(s, Skip(s, p), toks);
    } else {
      var reds, k1 := RedsParsed(s, p, toks, []);
      x, k := Simple([], []), toks;
      var r := ParseRedirs(s, p, []);
      if r.Redirects? {
        var args;
        args, k := ArgsParsed(s, r.pos, k1, [], r.list);
        x := Simple(reds, args);
      }
    }
  }

  lemma {:induction false} BlockParsed(s: string, p: nat, toks: seq<Tok>) returns (x: ExecText, k: seq<Tok>)
    requires Line(s) && Reads(s, p, toks) && toks != [] && toks[0] == Sign('(')
    ensures p <= |s| && Peeks(s, p, "(")
    ensures ParseBlock(s, p).Ok? ==> toks == ExecToks(x, k) && Reads(s, ParseBlock(s, p).pos, k)
    decreases |s| - p, 0
  {
    hide Reads, ReadsAt, GetToken, Skip, Peeks, TokOk, ParseRedirs, ParseLine, Wrap;
    PeekWas(s, p, toks);
    TokenWas(s, p, toks);
    x, k := Simple([], []), toks;
    var p1 := GetToken(s, p).next;
    var line, k1 := LineParsed(s, p1, toks[1..]);
    var r := ParseLine(s, p1);
    if r.Ok? {
      PeekWas(s, r.pos, k1);
      if Peeks(s, r.pos, ")") {
        TokenWas(s, r.pos, k1);
        var reds;
        reds, k := RedsParsed(s, GetToken(s, r.pos).next, k1[1..], []);
        x := Group(line, reds);
        assert k1 == [Sign(')')] + k1[1..] && toks == [Sign('(')] + toks[1..];
      }
    }
  }

  lemma {:induction false} PipeParsed(s: string, p: nat, toks: seq<Tok>) returns (x: PipeText, k: seq<Tok>)
    requires Line(s) && Reads(s, p, toks)
    ensures p <= |s| && (ParsePipe(s, p).Ok? ==> toks == PipeToks(x, k) && Reads(s, ParsePipe(s, p).pos, k))
    decreases |s| - p, 2
  {
    hide Reads, ReadsAt, GetToken, Skip, Peeks, TokOk, ParseExec, ExecToks;
    var exec;
    exec, k := ExecParsed(s, p, toks);
    x := One(exec);
    var r := ParseExec(s, p);
    if r.Ok? {
      PeekWas(s, r.pos, k);
      if Peeks(s, r.pos, "|") {
        TokenWas(s, r.pos, k);
        assert k == [Sign('|')] + k[1..];
        var rest;
        rest, k := PipeParsed(s, GetToken(s, r.pos).next, k[1..]);
        x := Bar(exec, rest);
      }
    }
  }

  lemma {:induction false} AmpsParsed(s: string, p: nat, toks: seq<Tok>, c: Cmd) returns (n: nat, k: seq<Tok>)
    requires Line(s) && Reads(s, p, toks)
    ensures p <= |s| && toks == AmpToks(n, k) && Reads(s, ParseBacks(s, p, c).pos, k)
    decreases |s| - p
  {
    hide Reads, ReadsAt, GetToken, Skip, Peeks, TokOk;
    PeekWas(s, p, toks);
    n, k := 0, toks;
    if Peeks(s, p, "&") {
      TokenWas(s, p, toks);
      n, k := AmpsParsed(s, GetToken(s, p).next, toks[1..], Back(c));
      n := n + 1;
      assert toks == [Sign('&')] + toks[1..];
    }
  }

  lemma {:induction false} LineParsed(s: string, p: nat, toks: seq<Tok>) returns (x: LineText, k: seq<Tok>)
    requires Line(s) && Reads(s, p, toks)
    ensures p <= |s| && (ParseLine(s, p).Ok? ==> toks == LineToks(x, k) && Reads(s, ParseLine(s, p).pos, k))
    decreases |s| - p, 3
  {
    hide Reads, ReadsAt, GetToken, Skip, Peeks, TokOk, ParsePipe, ParseBacks, PipeToks, AmpToks;
    var pipe, k1 := PipeParsed(s, p, toks);
    var r := ParsePipe(s, p);
    x, k := End(pipe, 0), k1;
    if r.Ok? {
      var amps;
      amps, k := AmpsParsed(s, r.pos, k1, r.cmd);
      var b := ParseBacks(s, r.pos, r.cmd);
      x := End(pipe, amps);
      PeekWas(s, b.pos, k);
      if Peeks(s, b.pos, ";") {
        TokenWas(s, b.pos, k);
        assert k == [Sign(';')] + k[1..];
        var rest;
        rest, k := LineParsed(s, GetToken(s, b.pos).next, k[1..]);
        x := Semi(pipe, amps, rest);
      }
    }
  }

  // ----- the whole line -----

  /** The line stands for this text of the grammar. */
  ghost predicate Spells(s: string, x: LineText) {
    Reads(s, 0, LineToks(x, []))
  }

  /** However it is spaced, the text is parsed into its tree, unless a simple command has ten words or more. */
  lemma {:induction false} ParsesText(s: string, x: LineText)
    requires Line(s) && Spells(s, x)
    ensures if LineShort(x) then ParseCmd(s).Ok? && Strings(s, ParseCmd(s).cmd) == LineTree(x) else ParseCmd(s).Panic?
  {
    hide Reads, ReadsAt, ParseLine, LineToks, Skip;
    LineRead(s, 0, x, []);
    if LineShort(x) {
      PeekWas(s, ParseLine(s, 0).pos, []);
    }
  }

  /** The parser accepts nothing else. */
  lemma {:induction false} AcceptsOnlyText(s: string) returns (x: LineText)
    requires Line(s) && ParseCmd(s).Ok?
    ensures Spells(s, x) && LineShort(x) && Strings(s, ParseCmd(s).cmd) == LineTree(x)
  {
    hide Reads, ReadsAt, ParseLine, LineToks, Skip;
    var toks := SomeTokens(s, 0);
    var k;
    x, k := LineParsed(s, 0, toks);
    PeekWas(s, ParseLine(s, 0).pos, k);
    ParsesText(s, x);
  }

  /** A line is accepted if and only if it stands for a text without long commands. */
  lemma {:induction false} GrammarIsExact(s: string)
    requires Line(s)
    ensures ParseCmd(s).Ok? <==> exists x :: Spells(s, x) && LineShort(x)
  {
    hide Spells, ParseCmd;
    if ParseCmd(s).Ok? {
      var x := AcceptsOnlyText(s);
    }
    if x :| Spells(s, x) && LineShort(x) {
      ParsesText(s, x);
    }
  }
}
