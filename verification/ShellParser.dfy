/** The parser of sh.c with its loops and its cursor, and nulterminate on the line buffer. */
module ShellParser {
  import opened ShellSyntax
  import Grammar = ShellGrammar

  /** A word of the line: word characters only, with something else or the end behind it. */
  ghost predicate WordAt(s: string, w: Span) {
    w.lo < w.hi <= |s| && (forall k {:trigger s[k]} :: w.lo <= k < w.hi ==> WordChar(s[k])) && !WordChar(Ch(s, w.hi))
  }

  /** All strings of the command are words of the line. */
  ghost predicate Good(s: string, c: Cmd) {
    match c
    case Exec(argv) => forall i :: 0 <= i < |argv| ==> WordAt(s, argv[i])
    case Redir(c1, file, _) => Good(s, c1) && WordAt(s, file)
    case Pipe(l, r) => Good(s, l) && Good(s, r)
    case List(l, r) => Good(s, l) && Good(s, r)
    case Back(c1) => Good(s, c1)
  }

  // ----- every string the parser returns is a word of the line -----

  lemma {:induction false} TokenIsWord(s: string, p: nat)
    requires Line(s) && p <= |s| && GetToken(s, p).kind == 'a'
    ensures WordAt(s, Span(GetToken(s, p).q, GetToken(s, p).eq))
  {
    var t := GetToken(s, p);
    forall k {:trigger s[k]} | t.q <= k < t.eq ensures WordChar(s[k]) {
    }
  }

  lemma {:induction false} WrapGood(s: string, c: Cmd, rs: seq<Redirect>)
    requires Good(s, c) && forall i :: 0 <= i < |rs| ==> WordAt(s, rs[i].file)
    ensures Good(s, Wrap(c, rs))
  {
    if rs != [] {
      WrapGood(s, c, rs[..|rs| - 1]);
    }
  }

  lemma {:induction false} RedirsGood(s: string, p: nat, rs: seq<Redirect>)
    requires Line(s) && p <= |s| && forall i :: 0 <= i < |rs| ==> WordAt(s, rs[i].file)
    ensures var r := ParseRedirs(s, p, rs); r.Redirects? ==> forall i :: 0 <= i < |r.list| ==> WordAt(s, r.list[i].file)
    decreases |s| - p
  {
    hide WordAt, GetToken, Skip;
    if Peeks(s, p, "<>") {
      var tok := GetToken(s, p);
      var file := GetToken(s, tok.next);
      if file.kind == 'a' {
        TokenIsWord(s, tok.next);
        Progress(s, p);
        RedirsGood(s, file.next, rs + [Redirect(Span(file.q, file.eq), if tok.kind == '<' then In else Out)]);
      }
    }
  }

  lemma {:induction false} Progress(s: string, p: nat)
    requires Line(s) && p <= |s| && Ch(s, Skip(s, p)) != '\0'
    ensures p < GetToken(s, p).next <= |s| && GetToken(s, p).kind != '\0'
  {
  }

  lemma {:induction false} ArgsGood(s: string, p: nat, argv: seq<Span>, rs: seq<Redirect>)
    requires Line(s) && p <= |s| && (forall i :: 0 <= i < |rs| ==> WordAt(s, rs[i].file))
    requires forall i :: 0 <= i < |argv| ==> WordAt(s, argv[i])
    ensures var r := ParseArgs(s, p, argv, rs); r.Ok? ==> Good(s, r.cmd)
    decreases |s| - p
  {
    hide WordAt, GetToken, Skip, ParseRedirs, Wrap;
    WrapGood(s, Exec(argv), rs);
    if !Peeks(s, p, "|)&;") {
      var tok := GetToken(s, p);
      if tok.kind == 'a' && |argv| + 1 < MAXARGS {
        TokenIsWord(s, p);
        RedirsGood(s, tok.next, rs);
        var r := ParseRedirs(s, tok.next, rs);
        if r.Redirects? {
          ArgsGood(s, r.pos, argv + [Span(tok.q, tok.eq)], r.list);
        }
      }
    }
  }

  lemma {:induction false} ExecGood(s: string, p: nat)
    requires Line(s) && p <= |s|
    ensures ParseExec(s, p).Ok? ==> Good(s, ParseExec(s, p).cmd)
    decreases |s| - p, 1
  {
    hide Good, Skip, GetToken, ParseArgs, ParseBlock, ParseRedirs, WordAt;
    if Peeks(s, p, "(") {
      SkipTwice(s, p);
      BlockGood(s, Skip(s, p));
    } else {
      RedirsGood(s, p, []);
      var r := ParseRedirs(s, p, []);
      if r.Redirects? {
        ArgsGood(s, r.pos, [], r.list);
      }
    }
  }

  lemma {:induction false} BlockGood(s: string, p: nat)
    requires Line(s) && p <= |s| && Peeks(s, p, "(")
    ensures ParseBlock(s, p).Ok? ==> Good(s, ParseBlock(s, p).cmd)
    decreases |s| - p, 0
  {
    hide Good, Skip, GetToken, ParseLine, ParseRedirs, WordAt;
    Progress(s, p);
    LineGood(s, GetToken(s, p).next);
    var r := ParseLine(s, GetToken(s, p).next);
    if r.Ok? && Peeks(s, r.pos, ")") {
      RedirsGood(s, GetToken(s, r.pos).next, []);
      var rs := ParseRedirs(s, GetToken(s, r.pos).next, []);
      if rs.Redirects? {
        WrapGood(s, r.cmd, rs.list);
      }
    }
  }

  lemma {:induction false} PipeGood(s: string, p: nat)
    requires Line(s) && p <= |s|
    ensures ParsePipe(s, p).Ok? ==> Good(s, ParsePipe(s, p).cmd)
    decreases |s| - p, 2
  {
    hide Skip, GetToken, ParseExec, WordAt;
    ExecGood(s, p);
    var r := ParseExec(s, p);
    if r.Ok? && Peeks(s, r.pos, "|") {
      Progress(s, r.pos);
      PipeGood(s, GetToken(s, r.pos).next);
    }
  }

  lemma {:induction false} BacksGood(s: string, p: nat, c: Cmd)
    requires Line(s) && p <= |s| && Good(s, c)
    ensures Good(s, ParseBacks(s, p, c).cmd)
    decreases |s| - p
  {
    hide Skip, GetToken, WordAt;
    if Peeks(s, p, "&") {
      Progress(s, p);
      BacksGood(s, GetToken(s, p).next, Back(c));
    }
  }

  /** Every string in the parsed command is a word of the line. */
  lemma {:induction false} LineGood(s: string, p: nat)
    requires Line(s) && p <= |s|
    ensures ParseLine(s, p).Ok? ==> Good(s, ParseLine(s, p).cmd)
    decreases |s| - p, 3
  {
    hide Skip, GetToken, ParsePipe, ParseBacks, WordAt;
    PipeGood(s, p);
    var r := ParsePipe(s, p);
    if r.Ok? {
      BacksGood(s, r.pos, r.cmd);
      var b := ParseBacks(s, r.pos, r.cmd);
      if Peeks(s, b.pos, ";") {
        Progress(s, b.pos);
        LineGood(s, GetToken(s, b.pos).next);
      }
    }
  }

  // ----- tokens -----

  /** The loop over white space in gettoken and peek. */
  method SkipWhite(s: string, p: nat) returns (r: nat)
    requires p <= |s|
    ensures r == Skip(s, p)
  {
    r := p;
    while r < |s| && White(s[r])
      invariant p <= r <= |s| && Skip(s, r) == Skip(s, p)
    {
      r := r + 1;
    }
  }

  /** gettoken. */
  method NextToken(s: string, p: nat) returns (t: Token)
    requires p <= |s|
    ensures t == GetToken(s, p)
  {
    var q := SkipWhite(s, p);
    var eq, kind := q, Ch(s, q);
    if kind == '\0' {
    } else if kind == '|' || kind == '(' || kind == ')' || kind == ';' || kind == '&' || kind == '<' {
      eq := eq + 1;
    } else if kind == '>' {
      eq := eq + 1;
      if Ch(s, eq) == '>' {
        kind, eq := '+', eq + 1;
      }
    } else {
      kind := 'a';
      while eq < |s| && !White(s[eq]) && !Symbol(s[eq])
        invariant q <= eq <= |s| && WordEnd(s, eq) == WordEnd(s, q)
      {
        eq := eq + 1;
      }
    }
    var next := SkipWhite(s, eq);
    t := Token(kind, q, eq, next);
  }

  method Peek(s: string, p: nat, toks: string) returns (r: nat, b: bool)
    requires p <= |s|
    ensures r == Skip(s, p) && b == Peeks(s, p, toks)
  {
    r := SkipWhite(s, p);
    b := Ch(s, r) != '\0' && Ch(s, r) in toks;
  }

  // ----- the parser -----

  method Redirections(s: string, p: nat, rs: seq<Redirect>) returns (r: Redirects)
    requires Line(s) && p <= |s|
    ensures r == ParseRedirs(s, p, rs)
  {
    hide GetToken, Skip;
    var list, ps := rs, p;
    while true
      invariant p <= ps <= |s| && ParseRedirs(s, ps, list) == ParseRedirs(s, p, rs)
      decreases |s| - ps
    {
      SkipTwice(s, ps);
      var at, more := Peek(s, ps, "<>");
      if !more {
        return Redirects(list, at);
      }
      Progress(s, ps);
      var tok := NextToken(s, at);
      var file := NextToken(s, tok.next);
      if file.kind != 'a' {
        return BadRedirects;
      }
      ps := file.next;
      list := list + [Redirect(Span(file.q, file.eq), if tok.kind == '<' then In else Out)];
    }
  }

  /** The loop of parseexec over words. */
  method Arguments(s: string, p: nat, rs: seq<Redirect>) returns (r: Parsed)
    requires Line(s) && p <= |s|
    ensures r == ParseArgs(s, p, [], rs)
  {
    hide GetToken, Skip, ParseRedirs;
    var argv, list, ps := [], rs, p;
    while true
      invariant p <= ps <= |s| && |argv| < MAXARGS && ParseArgs(s, ps, argv, list) == ParseArgs(s, p, [], rs)
      decreases |s| - ps
    {
      SkipTwice(s, ps);
      var at, stop := Peek(s, ps, "|)&;");
      if stop {
        return Ok(Wrap(Exec(argv), list), at);
      }
      var tok := NextToken(s, at);
      if tok.kind == '\0' {
        return Ok(Wrap(Exec(argv), list), tok.next);
      }
      if tok.kind != 'a' {
        return Panic;
      }
      if |argv| + 1 >= MAXARGS {
        return Panic;
      }
      var redirs := Redirections(s, tok.next, list);
      if redirs.BadRedirects? {
        return Panic;
      }
      argv, list, ps := argv + [Span(tok.q, tok.eq)], redirs.list, redirs.pos;
    }
  }

  method Execution(s: string, p: nat) returns (r: Parsed)
    requires Line(s) && p <= |s|
    ensures r == ParseExec(s, p)
    decreases |s| - p, 1
  {
    hide GetToken, Skip, ParseRedirs, ParseArgs, ParseBlock;
    SkipTwice(s, p);
    var ps, block := Peek(s, p, "(");
    if block {
      r := Parenthesised(s, ps);
      return;
    }
    SkippedRedirs(s, p);
    var redirs := Redirections(s, ps, []);
    if redirs.BadRedirects? {
      return Panic;
    }
    r := Arguments(s, redirs.pos, redirs.list);
  }

  lemma {:induction false} SkippedRedirs(s: string, p: nat)
    requires Line(s) && p <= |s|
    ensures ParseRedirs(s, Skip(s, p), []) == ParseRedirs(s, p, [])
  {
    hide GetToken, Skip;
    SkipTwice(s, p);
  }

  method Parenthesised(s: string, p: nat) returns (r: Parsed)
    requires Line(s) && p <= |s| && Peeks(s, p, "(")
    ensures r == ParseBlock(s, p)
    decreases |s| - p, 0
  {
    hide GetToken, Skip, ParseRedirs, ParseLine;
    Progress(s, p);
    var open := NextToken(s, p);
    var inner := CommandLine(s, open.next);
    if inner.Panic? {
      return Panic;
    }
    SkipTwice(s, inner.pos);
    var ps, closed := Peek(s, inner.pos, ")");
    if !closed {
      return Panic;
    }
    var close := NextToken(s, ps);
    var redirs := Redirections(s, close.next, []);
    if redirs.BadRedirects? {
      return Panic;
    }
    r := Ok(Wrap(inner.cmd, redirs.list), redirs.pos);
  }

  method Pipeline(s: string, p: nat) returns (r: Parsed)
    requires Line(s) && p <= |s|
    ensures r == ParsePipe(s, p)
    decreases |s| - p, 2
  {
    hide GetToken, Skip, ParseExec;
    var left := Execution(s, p);
    if left.Panic? {
      return Panic;
    }
    SkipTwice(s, left.pos);
    var ps, bar := Peek(s, left.pos, "|");
    if !bar {
      return Ok(left.cmd, ps);
    }
    Progress(s, left.pos);
    var tok := NextToken(s, ps);
    var right := Pipeline(s, tok.next);
    if right.Panic? {
      return Panic;
    }
    r := Ok(Pipe(left.cmd, right.cmd), right.pos);
  }

  method CommandLine(s: string, p: nat) returns (r: Parsed)
    requires Line(s) && p <= |s|
    ensures r == ParseLine(s, p)
    decreases |s| - p, 3
  {
    hide GetToken, Skip, ParsePipe;
    var first := Pipeline(s, p);
    if first.Panic? {
      return Panic;
    }
    var cmd, ps := first.cmd, first.pos;
    while true
      invariant first.pos <= ps <= |s| && ParseBacks(s, ps, cmd) == ParseBacks(s, first.pos, first.cmd)
      decreases |s| - ps
    {
      SkipTwice(s, ps);
      var at, amp := Peek(s, ps, "&");
      if !amp {
        ps := at;
        break;
      }
      Progress(s, ps);
      var tok := NextToken(s, at);
      cmd, ps := Back(cmd), tok.next;
    }
    var at, semi := Peek(s, ps, ";");
    if !semi {
      return Ok(cmd, at);
    }
    Progress(s, ps);
    var tok := NextToken(s, at);
    var rest := CommandLine(s, tok.next);
    if rest.Panic? {
      return Panic;
    }
    r := Ok(List(cmd, rest.cmd), rest.pos);
  }

  // ----- nulterminate -----

  /** Position k is where a string of the command ends. */
  ghost predicate IsEnd(c: Cmd, k: int) {
    match c
    case Exec(argv) => exists i :: 0 <= i < |argv| && argv[i].hi == k
    case Redir(c1, file, _) => IsEnd(c1, k) || file.hi == k
    case Pipe(l, r) => IsEnd(l, k) || IsEnd(r, k)
    case List(l, r) => IsEnd(l, k) || IsEnd(r, k)
    case Back(c1) => IsEnd(c1, k)
  }

  method NulTerminate(c: Cmd, line: array<char>)
    requires forall k :: IsEnd(c, k) ==> 0 <= k < line.Length
    modifies line
    ensures forall k {:trigger line[k]} :: 0 <= k < line.Length ==>
      line[k] == if IsEnd(c, k) then '\0' else old(line[k])
    decreases c
  {
    match c
    case Exec(argv) =>
      var i := 0;
      while i < |argv|
        invariant 0 <= i <= |argv|
        invariant forall k {:trigger line[k]} :: 0 <= k < line.Length ==>
          line[k] == if exists j :: 0 <= j < i && argv[j].hi == k then '\0' else old(line[k])
      {
        assert IsEnd(c, argv[i].hi);
        line[argv[i].hi] := '\0';
        i := i + 1;
      }
    case Redir(c1, file, _) =>
      assert forall k :: IsEnd(c1, k) ==> IsEnd(c, k);
      assert IsEnd(c, file.hi);
      NulTerminate(c1, line);
      line[file.hi] := '\0';
    case Pipe(l, r) =>
      assert forall k :: IsEnd(l, k) || IsEnd(r, k) ==> IsEnd(c, k);
      NulTerminate(l, line);
      NulTerminate(r, line);
    case List(l, r) =>
      assert forall k :: IsEnd(l, k) || IsEnd(r, k) ==> IsEnd(c, k);
      NulTerminate(l, line);
      NulTerminate(r, line);
    case Back(c1) =>
      assert forall k :: IsEnd(c1, k) ==> IsEnd(c, k);
      NulTerminate(c1, line);
  }

  /** w is one of the strings of the command. */
  ghost predicate IsString(c: Cmd, w: Span) {
    match c
    case Exec(argv) => w in argv
    case Redir(c1, file, _) => IsString(c1, w) || file == w
    case Pipe(l, r) => IsString(l, w) || IsString(r, w)
    case List(l, r) => IsString(l, w) || IsString(r, w)
    case Back(c1) => IsString(c1, w)
  }

  lemma {:induction false} StringIsWord(s: string, c: Cmd, w: Span)
    requires Good(s, c) && IsString(c, w)
    ensures WordAt(s, w) && IsEnd(c, w.hi)
  {
    match c
    case Exec(argv) =>
    case Redir(c1, file, _) => if IsString(c1, w) { StringIsWord(s, c1, w); }
    case Pipe(l, r) => if IsString(l, w) { StringIsWord(s, l, w); } else { StringIsWord(s, r, w); }
    case List(l, r) => if IsString(l, w) { StringIsWord(s, l, w); } else { StringIsWord(s, r, w); }
    case Back(c1) => StringIsWord(s, c1, w);
  }

  /** A string ends outside every word. */
  lemma {:induction false} EndIsOutside(s: string, c: Cmd, k: int)
    requires Good(s, c) && IsEnd(c, k)
    ensures 0 <= k <= |s| && !WordChar(Ch(s, k))
  {
    match c
    case Exec(argv) =>
    case Redir(c1, file, _) => if IsEnd(c1, k) { EndIsOutside(s, c1, k); }
    case Pipe(l, r) => if IsEnd(l, k) { EndIsOutside(s, l, k); } else { EndIsOutside(s, r, k); }
    case List(l, r) => if IsEnd(l, k) { EndIsOutside(s, l, k); } else { EndIsOutside(s, r, k); }
    case Back(c1) => EndIsOutside(s, c1, k);
  }

  /** The C string at w.lo in the buffer is the word w of the line s. */
  ghost predicate CStringIs(line: seq<char>, s: string, w: Span) {
    && w.lo < w.hi <= |s| && w.hi < |line| && line[w.lo..w.hi] == s[w.lo..w.hi] && line[w.hi] == '\0'
    && forall k {:trigger line[k]} :: w.lo <= k < w.hi ==> line[k] != '\0'
  }

  lemma {:induction false} Meaning(s: string)
    requires Line(s)
    ensures ParseCmd(s).Ok? <==> exists x :: Grammar.Spells(s, x) && Grammar.LineShort(x)
    ensures ParseCmd(s).Ok? ==>
      forall x {:trigger Grammar.Spells(s, x)} :: Grammar.Spells(s, x) ==>
        Grammar.Strings(s, ParseCmd(s).cmd) == Grammar.LineTree(x)
  {
    hide ParseCmd, Grammar.Spells, Grammar.Strings, Grammar.LineTree;
    Grammar.GrammarIsExact(s);
    forall x | Grammar.Spells(s, x) && ParseCmd(s).Ok?
      ensures Grammar.Strings(s, ParseCmd(s).cmd) == Grammar.LineTree(x)
    {
      Grammar.ParsesText(s, x);
    }
  }

  /** parsecmd: the tree of the line, whose strings, once terminated, are the words of the line. */
  method Command(line: array<char>, ghost s: string) returns (r: Parsed)
    requires Line(s) && line[..] == s + ['\0']
    modifies line
    ensures r == ParseCmd(s)
    ensures r.Ok? <==> exists x :: Grammar.Spells(s, x) && Grammar.LineShort(x)
    ensures r.Ok? ==>
      forall x {:trigger Grammar.Spells(s, x)} :: Grammar.Spells(s, x) ==>
        Grammar.Strings(s, r.cmd) == Grammar.LineTree(x)
    ensures r.Panic? ==> line[..] == old(line[..])
    ensures r.Ok? ==> forall w {:trigger IsString(r.cmd, w)} :: IsString(r.cmd, w) ==> CStringIs(line[..], s, w)
    ensures r.Ok? ==>
      forall k {:trigger line[k]} :: 0 <= k <= |s| < line.Length && line[k] != old(line[k]) ==>
        !WordChar(old(line[k]))
  {
    hide ParseLine, Good, IsEnd, IsString, WordAt, Grammar.Spells, Grammar.LineShort, Grammar.LineTree;
    Meaning(s);
    var n := line.Length - 1;
    var text := line[..n];
    assert text == s;
    var parsed := CommandLine(text, 0);
    if parsed.Panic? {
      return Panic;
    }
    SkipTwice(s, parsed.pos);
    var at, _ := Peek(text, parsed.pos, "");
    if at != n {
      return Panic;
    }
    LineGood(s, 0);
    EndsInside(s, parsed.cmd);
    ghost var was := line[..];
    NulTerminate(parsed.cmd, line);
    Terminated(s, parsed.cmd, was, line[..]);
    r := Ok(parsed.cmd, n);
  }

  lemma {:induction false} EndsInside(s: string, c: Cmd)
    requires Good(s, c)
    ensures forall k {:trigger IsEnd(c, k)} :: IsEnd(c, k) ==> 0 <= k <= |s| && !WordChar(Ch(s, k))
  {
    forall k | IsEnd(c, k) ensures 0 <= k <= |s| && !WordChar(Ch(s, k)) {
      EndIsOutside(s, c, k);
    }
  }

  lemma {:induction false} Terminated(s: string, c: Cmd, was: seq<char>, line: seq<char>)
    requires Good(s, c) && was == s + ['\0'] && |line| == |was|
    requires forall k {:trigger line[k]} :: 0 <= k < |line| ==> line[k] == if IsEnd(c, k) then '\0' else was[k]
    ensures forall w {:trigger IsString(c, w)} :: IsString(c, w) ==> CStringIs(line, s, w)
  {
    hide Good, IsEnd, IsString;
    EndsInside(s, c);
    forall w | IsString(c, w) ensures CStringIs(line, s, w) {
      StringIsWord(s, c, w);
      forall k {:trigger line[k]} | w.lo <= k < w.hi ensures line[k] == s[k] && line[k] != '\0' {
        assert WordChar(s[k]);
      }
      assert line[w.lo..w.hi] == s[w.lo..w.hi];
    }
  }
}
