/** Parsing undoes printing: a text of the grammar printed with spaces, and any command tree printed with parentheses
    around every part, come back as they were, with the exception of >>, which comes back as >. */
module ShellRoundTrip {
  import opened ShellSyntax
  import opened ShellGrammar

  // ----- spelling -----

  lemma {:induction false} HereParts(s: string, p: nat, a: string, b: string)
    requires Here(s, p, a + b)
    ensures Here(s, p, a) && Here(s, p + |a|, b)
  {
    var x := a + b;
    assert s[p..p + |x|][..|a|] == a && s[p..p + |x|][|a|..] == b;
  }

  lemma {:induction false} ReadsMore(s: string, p: nat, t: Tok, toks: seq<Tok>)
    requires TokOk(t) && Here(s, p, Text(t)) && EndsBefore(t, Ch(s, p + |Text(t)|)) && Reads(s, p + |Text(t)|, toks)
    ensures Reads(s, p, [t] + toks)
  {
    assert ([t] + toks)[1..] == toks;
    assert Blank(s, p, p) && ReadsAt(s, p, [t] + toks);
  }

  lemma {:induction false} ReadsSpace(s: string, p: nat, toks: seq<Tok>)
    requires Here(s, p, " ") && Reads(s, p + 1, toks)
    ensures Reads(s, p, toks)
  {
    HereAt(s, p, " ", 0);
    var q: nat :| Blank(s, p + 1, q) && ReadsAt(s, q, toks);
    assert Blank(s, p, q);
  }

  lemma {:induction false} ReadsNothing(s: string)
    ensures Reads(s, |s|, [])
  {
    assert Blank(s, |s|, |s|) && ReadsAt(s, |s|, []);
  }

  // ----- with spaces -----

  /** The tokens with a space behind each. */
  function Spaced(toks: seq<Tok>): string {
    if toks == [] then "" else Text(toks[0]) + (" " + Spaced(toks[1..]))
  }

  lemma {:induction false} SpacedReads(s: string, p: nat, toks: seq<Tok>)
    requires Here(s, p, Spaced(toks)) && p + |Spaced(toks)| == |s| && forall k :: 0 <= k < |toks| ==> TokOk(toks[k])
    ensures Reads(s, p, toks)
    decreases |toks|
  {
    hide Reads, TokOk, Here, Text, EndsBefore;
    if toks == [] {
      ReadsNothing(s);
    } else {
      var t, rest := toks[0], toks[1..];
      HereParts(s, p, Text(t), " " + Spaced(rest));
      HereParts(s, p + |Text(t)|, " ", Spaced(rest));
      SpacedReads(s, p + |Text(t)| + 1, rest);
      SpacedToken(s, p, t, rest);
      assert [t] + rest == toks;
    }
  }

  lemma {:induction false} SpacedToken(s: string, p: nat, t: Tok, rest: seq<Tok>)
    requires TokOk(t) && Here(s, p, Text(t)) && Here(s, p + |Text(t)|, " ") && Reads(s, p + |Text(t)| + 1, rest)
    ensures Reads(s, p, [t] + rest)
  {
    hide Reads, TokOk, Text;
    HereAt(s, p + |Text(t)|, " ", 0);
    ReadsSpace(s, p + |Text(t)|, rest);
    ReadsMore(s, p, t, rest);
  }

  lemma {:induction false} SpacedIsLine(toks: seq<Tok>)
    requires forall k :: 0 <= k < |toks| ==> TokOk(toks[k])
    ensures Line(Spaced(toks))
  {
    if toks != [] {
      SpacedIsLine(toks[1..]);
      assert TokOk(toks[0]);
    }
  }

  /** A text of proper words, printed with spaces and parsed, gives its tree; or panic, if a command is too long. */
  lemma {:induction false} PrintedBack(x: LineText)
    requires forall k :: 0 <= k < |LineToks(x, [])| ==> TokOk(LineToks(x, [])[k])
    ensures var s := Spaced(LineToks(x, []));
      && Line(s) && (ParseCmd(s).Ok? <==> LineShort(x))
      && (LineShort(x) ==> Strings(s, ParseCmd(s).cmd) == LineTree(x))
  {
    hide ParseCmd, LineToks, Reads, TokOk;
    var toks := LineToks(x, []);
    SpacedIsLine(toks);
    assert Here(Spaced(toks), 0, Spaced(toks));
    SpacedReads(Spaced(toks), 0, toks);
    ParsesText(Spaced(toks), x);
  }

  // ----- with parentheses around every part -----

  /** The tree with > for >>. */
  function Plain(t: Tree): Tree {
    match t
    case Run(argv) => t
    case To(c, file, arrow) => To(Plain(c), file, ArrowOf(arrow.Mode()))
    case Piped(l, r) => Piped(Plain(l), Plain(r))
    case Then(l, r) => Then(Plain(l), Plain(r))
    case Aside(c) => Aside(Plain(c))
  }

  /** A tree of proper words. */
  ghost predicate Worded(t: Tree) {
    match t
    case Run(argv) => forall k :: 0 <= k < |argv| ==> Word(argv[k])
    case To(c, file, _) => Worded(c) && Word(file)
    case Piped(l, r) => Worded(l) && Worded(r)
    case Then(l, r) => Worded(l) && Worded(r)
    case Aside(c) => Worded(c)
  }

  /** At most nine words in each command. */
  ghost predicate Short(t: Tree) {
    match t
    case Run(argv) => |argv| < 10
    case To(c, file, _) => Short(c)
    case Piped(l, r) => Short(l) && Short(r)
    case Then(l, r) => Short(l) && Short(r)
    case Aside(c) => Short(c)
  }

  function Join(ws: seq<string>): string {
    if ws == [] then "" else if |ws| == 1 then ws[0] else ws[0] + (" " + Join(ws[1..]))
  }

  function Block(t: Tree): string
    decreases t, 1
  {
    "(" + (Show(t) + ")")
  }

  function Show(t: Tree): string
    decreases t, 0
  {
    match t
    case Run(argv) => Join(argv)
    case To(c, file, arrow) => Block(c) + (arrow.Text() + file)
    case Piped(l, r) => Block(l) + ("|" + Block(r))
    case Then(l, r) => Block(l) + (";" + Block(r))
    case Aside(c) => Block(c) + "&"
  }

  /** The text of the grammar that is printed. */
  function FullText(t: Tree): LineText {
    match t
    case Run(argv) => End(One(Simple([], Bare(argv))), 0)
    case To(c, file, arrow) => End(One(Group(FullText(c), [Red(arrow, file)])), 0)
    case Piped(l, r) => End(Bar(Group(FullText(l), []), One(Group(FullText(r), []))), 0)
    case Then(l, r) => Semi(One(Group(FullText(l), [])), 0, End(One(Group(FullText(r), [])), 0))
    case Aside(c) => End(One(Group(FullText(c), [])), 1)
  }

  function Bare(ws: seq<string>): seq<Arg> {
    if ws == [] then [] else [Arg(ws[0], [])] + Bare(ws[1..])
  }

  lemma {:induction false} BareWords(ws: seq<string>)
    ensures Words(Bare(ws)) == ws && ArgReds(Bare(ws)) == [] && |Bare(ws)| == |ws|
  {
    if ws != [] {
      BareWords(ws[1..]);
      assert Bare(ws)[1..] == Bare(ws[1..]);
    }
  }

  lemma {:induction false} GroupTree(x: LineText, reds: seq<Red>)
    ensures PipeTree(One(Group(x, reds))) == ExecTree(Group(x, reds)) == Around(LineTree(x), reds)
    ensures PipeShort(One(Group(x, reds))) == ExecShort(Group(x, reds)) == LineShort(x)
    ensures reds == [] ==> ExecTree(Group(x, reds)) == LineTree(x)
  {
  }

  lemma {:induction false} GroupToks(x: LineText, reds: seq<Red>, k: seq<Tok>)
    ensures ExecToks(Group(x, reds), k) == [Sign('(')] + LineToks(x, [Sign(')')] + RedToks(reds, k))
    ensures PipeToks(One(Group(x, reds)), k) == ExecToks(Group(x, reds), k) && RedToks([], k) == k
  {
  }

  lemma {:induction false} EndOf(pipe: PipeText, n: nat, k: seq<Tok>)
    ensures LineTree(End(pipe, n)) == Asides(PipeTree(pipe), n) && LineShort(End(pipe, n)) == PipeShort(pipe)
    ensures LineToks(End(pipe, n), k) == PipeToks(pipe, AmpToks(n, k))
    ensures AmpToks(0, k) == k && AmpToks(1, k) == [Sign('&')] + k
    ensures Asides(PipeTree(pipe), 0) == PipeTree(pipe) && Asides(PipeTree(pipe), 1) == Aside(PipeTree(pipe))
  {
    assert AmpToks(1, k) == [Sign('&')] + AmpToks(0, k);
    assert Asides(PipeTree(pipe), 1) == Aside(Asides(PipeTree(pipe), 0));
  }

  lemma {:induction false} FullTree(t: Tree)
    ensures LineTree(FullText(t)) == Plain(t) && (LineShort(FullText(t)) <==> Short(t))
  {
    hide LineTree, LineShort, Asides;
    match t
    case Run(argv) =>
      EndOf(One(Simple([], Bare(argv))), 0, []);
      BareWords(argv);
    case To(c, file, arrow) =>
      FullTree(c);
      var reds := [Red(arrow, file)];
      EndOf(One(Group(FullText(c), reds)), 0, []);
      GroupTree(FullText(c), reds);
      assert reds[1..] == [];
    case Piped(l, r) =>
      FullTree(l);
      FullTree(r);
      EndOf(Bar(Group(FullText(l), []), One(Group(FullText(r), []))), 0, []);
      GroupTree(FullText(l), []);
      GroupTree(FullText(r), []);
    case Then(l, r) =>
      FullTree(l);
      FullTree(r);
      ThenTree(l, r);
      EndOf(One(Group(FullText(r), [])), 0, []);
      EndOf(One(Group(FullText(l), [])), 0, []);
      GroupTree(FullText(l), []);
      GroupTree(FullText(r), []);
    case Aside(c) =>
      FullTree(c);
      EndOf(One(Group(FullText(c), [])), 1, []);
      GroupTree(FullText(c), []);
  }

  lemma {:induction false} ThenTree(l: Tree, r: Tree)
    ensures var left, right := One(Group(FullText(l), [])), End(One(Group(FullText(r), [])), 0);
      && LineTree(FullText(Then(l, r))) == Then(Asides(PipeTree(left), 0), LineTree(right))
      && (LineShort(FullText(Then(l, r))) <==> PipeShort(left) && LineShort(right))
  {
  }

  lemma {:induction false} JoinReads(s: string, p: nat, ws: seq<string>, k: seq<Tok>)
    requires Here(s, p, Join(ws)) && Reads(s, p + |Join(ws)|, k) && !WordChar(Ch(s, p + |Join(ws)|))
    requires forall k :: 0 <= k < |ws| ==> Word(ws[k])
    ensures Reads(s, p, ArgToks(Bare(ws), k))
    decreases |ws|
  {
    hide Reads, Word, WordChar;
    if ws == [] {
    } else if |ws| == 1 {
      ReadsMore(s, p, Wd(ws[0]), k);
      assert Bare(ws)[1..] == [];
    } else {
      var e := p + |ws[0]|;
      HereParts(s, p, ws[0], " " + Join(ws[1..]));
      HereParts(s, e, " ", Join(ws[1..]));
      HereAt(s, e, " ", 0);
      JoinReads(s, e + 1, ws[1..], k);
      ReadsSpace(s, e, ArgToks(Bare(ws[1..]), k));
      SpaceNoWord();
      ReadsMore(s, p, Wd(ws[0]), ArgToks(Bare(ws[1..]), k));
      assert Bare(ws)[1..] == Bare(ws[1..]);
    }
  }

  lemma {:induction false} SpaceNoWord()
    ensures !WordChar(' ') && !WordChar(')') && !WordChar('\0') && !WordChar('&') && !WordChar('|') && !WordChar(';')
  {
  }

  /** A block, whatever follows it. */
  lemma {:induction false} BlockReads(s: string, p: nat, t: Tree, k: seq<Tok>)
    requires Worded(t) && Here(s, p, Block(t)) && Reads(s, p + |Block(t)|, k)
    ensures Reads(s, p, [Sign('(')] + LineToks(FullText(t), [Sign(')')] + k))
    decreases t, 3
  {
    hide Reads, Worded, WordChar, LineToks, FullText, Show;
    var e := p + 1 + |Show(t)|;
    HereParts(s, p, "(", Show(t) + ")");
    HereParts(s, p + 1, Show(t), ")");
    HereAt(s, e, ")", 0);
    SpaceNoWord();
    ReadsMore(s, e, Sign(')'), k);
    ShowReads(s, p + 1, t, [Sign(')')] + k);
    ReadsMore(s, p, Sign('('), LineToks(FullText(t), [Sign(')')] + k));
  }

  lemma {:induction false} ShowReads(s: string, p: nat, t: Tree, k: seq<Tok>)
    requires Worded(t) && Here(s, p, Show(t)) && Reads(s, p + |Show(t)|, k) && !WordChar(Ch(s, p + |Show(t)|))
    ensures Reads(s, p, LineToks(FullText(t), k))
    decreases t, 2
  {
    hide Reads, Word, WordChar, Block, Here, AmpToks, RedToks, LineToks;
    match t
    case Run(argv) =>
      JoinReads(s, p, argv, k);
      EndOf(FullText(t).pipe, 0, k);
      RunToks(argv, k);
    case To(c, file, arrow) =>
      RedReads(s, p + |Block(c)|, file, arrow, k, Block(c), p);
      BlockReads(s, p, c, RedToks([Red(arrow, file)], k));
      GroupToks(FullText(c), [Red(arrow, file)], k);
      EndOf(FullText(t).pipe, 0, k);
    case Piped(l, r) =>
      TwoBlocks(s, p, t, l, r, '|', k);
      PipedToks(FullText(l), FullText(r), k);
    case Then(l, r) =>
      TwoBlocks(s, p, t, l, r, ';', k);
      ThenToks(FullText(l), FullText(r), k);
    case Aside(c) =>
      HereParts(s, p, Block(c), "&");
      ReadsMore(s, p + |Block(c)|, Sign('&'), k);
      BlockReads(s, p, c, [Sign('&')] + k);
      GroupToks(FullText(c), [], [Sign('&')] + k);
      EndOf(FullText(t).pipe, 1, k);
  }

  lemma {:induction false} RunToks(argv: seq<string>, k: seq<Tok>)
    ensures PipeToks(One(Simple([], Bare(argv))), k) == ArgToks(Bare(argv), k)
  {
  }

  lemma {:induction false} PipedToks(l: LineText, r: LineText, k: seq<Tok>)
    ensures var right := [Sign('(')] + LineToks(r, [Sign(')')] + k);
      LineToks(End(Bar(Group(l, []), One(Group(r, []))), 0), k) ==
        [Sign('(')] + LineToks(l, [Sign(')')] + ([Sign('|')] + right))
  {
    hide LineToks, AmpToks, RedToks;
    EndOf(Bar(Group(l, []), One(Group(r, []))), 0, k);
    GroupToks(r, [], k);
    GroupToks(l, [], [Sign('|')] + PipeToks(One(Group(r, [])), k));
  }

  lemma {:induction false} ThenToks(l: LineText, r: LineText, k: seq<Tok>)
    ensures var right := [Sign('(')] + LineToks(r, [Sign(')')] + k);
      LineToks(Semi(One(Group(l, [])), 0, End(One(Group(r, [])), 0)), k) ==
        [Sign('(')] + LineToks(l, [Sign(')')] + ([Sign(';')] + right))
  {
    hide RedToks;
    EndOf(One(Group(r, [])), 0, k);
    GroupToks(r, [], k);
    GroupToks(l, [], [Sign(';')] + PipeToks(One(Group(r, [])), k));
  }

  /** A redirection behind a block. */
  lemma {:induction false} RedReads(s: string, n: nat, file: string, arrow: Arrow, k: seq<Tok>, block: string, p: nat)
    requires Word(file) && n == p + |block| && Here(s, p, block + (arrow.Text() + file))
    requires Reads(s, n + |arrow.Text() + file|, k) && !WordChar(Ch(s, n + |arrow.Text() + file|))
    ensures Here(s, p, block) && Reads(s, n, RedToks([Red(arrow, file)], k))
  {
    hide Reads, Word, WordChar, Here;
    var e := n + |arrow.Text()|;
    HereParts(s, p, block, arrow.Text() + file);
    HereParts(s, n, arrow.Text(), file);
    ReadsMore(s, e, Wd(file), k);
    FileStart(s, e, file);
    ReadsMore(s, n, Arr(arrow), [Wd(file)] + k);
    assert [Red(arrow, file)][1..] == [];
    assert [Arr(arrow)] + ([Wd(file)] + k) == RedToks([Red(arrow, file)], k);
  }

  lemma {:induction false} FileStart(s: string, p: nat, file: string)
    requires Word(file) && Here(s, p, file)
    ensures Ch(s, p) != '>'
  {
    HereAt(s, p, file, 0);
  }

  lemma {:induction false} TwoBlocks(s: string, p: nat, t: Tree, l: Tree, r: Tree, c: char, k: seq<Tok>)
    requires (t == Piped(l, r) && c == '|') || (t == Then(l, r) && c == ';')
    requires Worded(l) && Worded(r) && Here(s, p, Block(l) + ([c] + Block(r)))
    requires Reads(s, p + |Block(l) + ([c] + Block(r))|, k)
    ensures var right := [Sign('(')] + LineToks(FullText(r), [Sign(')')] + k);
      Reads(s, p, [Sign('(')] + LineToks(FullText(l), [Sign(')')] + ([Sign(c)] + right)))
    decreases t, 1
  {
    hide Reads, Worded, Block, LineToks, FullText, Here;
    var n := p + |Block(l)|;
    HereParts(s, p, Block(l), [c] + Block(r));
    HereParts(s, n, [c], Block(r));
    BlockReads(s, n + 1, r, k);
    var right := [Sign('(')] + LineToks(FullText(r), [Sign(')')] + k);
    ReadsMore(s, n, Sign(c), right);
    BlockReads(s, p, l, [Sign(c)] + right);
  }

  // ----- the whole line -----

  /** Parsing the text of a tree gives that tree, up to >>, exactly when no command has ten words or more. */
  lemma {:induction false} RoundTrip(t: Tree)
    requires Worded(t)
    ensures Line(Show(t))
    ensures ParseCmd(Show(t)).Ok? <==> Short(t)
    ensures Short(t) ==> Strings(Show(t), ParseCmd(Show(t)).cmd) == Plain(t)
  {
    hide Show, Strings, Plain, Worded, Short, ParseCmd, LineTree, LineShort, FullText, LineToks, Reads;
    ShowIsLine(t);
    var s := Show(t);
    assert Here(s, 0, s);
    ReadsNothing(s);
    ShowReads(s, 0, t, []);
    ParsesText(s, FullText(t));
    FullTree(t);
  }

  /** A line with >> means what it means with > instead. */
  lemma {:induction false} AppendIsOnto(t: Tree)
    requires Worded(t)
    ensures Line(Show(t)) && Line(Show(Plain(t)))
    ensures ParseCmd(Show(t)).Ok? <==> ParseCmd(Show(Plain(t))).Ok?
    ensures ParseCmd(Show(t)).Ok? ==>
      Strings(Show(t), ParseCmd(Show(t)).cmd) == Strings(Show(Plain(t)), ParseCmd(Show(Plain(t))).cmd)
  {
    hide Show, Strings, ParseCmd;
    PlainKeeps(t);
    RoundTrip(t);
    RoundTrip(Plain(t));
  }

  lemma {:induction false} PlainKeeps(t: Tree)
    ensures (Worded(Plain(t)) <==> Worded(t)) && (Short(Plain(t)) <==> Short(t)) && Plain(Plain(t)) == Plain(t)
  {
    match t
    case Run(argv) =>
    case To(c, file, arrow) => PlainKeeps(c);
    case Piped(l, r) => PlainKeeps(l); PlainKeeps(r);
    case Then(l, r) => PlainKeeps(l); PlainKeeps(r);
    case Aside(c) => PlainKeeps(c);
  }

  lemma {:induction false} JoinIsLine(ws: seq<string>)
    requires forall k :: 0 <= k < |ws| ==> Word(ws[k])
    ensures Line(Join(ws))
  {
    if |ws| > 1 {
      JoinIsLine(ws[1..]);
    }
  }

  lemma {:induction false} ShowIsLine(t: Tree)
    requires Worded(t)
    ensures Line(Show(t))
  {
    match t
    case Run(argv) => JoinIsLine(argv);
    case To(c, file, arrow) => ShowIsLine(c);
    case Piped(l, r) => ShowIsLine(l); ShowIsLine(r);
    case Then(l, r) => ShowIsLine(l); ShowIsLine(r);
    case Aside(c) => ShowIsLine(c);
  }
}
