/** The shell's command language (sh.c): tokens, and the recursive-descent parser as functions of the line and
    a position in it. A line is the sequence of its characters before the terminating NUL. */
module ShellSyntax {
  const MAXARGS := 10

  /** A string between two pointers into the line. */
  datatype Span = Span(lo: nat, hi: nat)

  /** O_RDONLY on descriptor 0, or O_WRONLY|O_CREATE on descriptor 1, which >> asks for too. */
  datatype Mode = In | Out

  datatype Cmd =
    Exec(argv: seq<Span>) | Redir(cmd: Cmd, file: Span, mode: Mode) | Pipe(left: Cmd, right: Cmd)
    | List(left: Cmd, right: Cmd) | Back(cmd: Cmd)

  /** Where panic() ends the shell's child. */
  datatype Parsed = Ok(cmd: Cmd, pos: nat) | Panic

  predicate White(c: char) {
    c == ' ' || c == '\t' || c == '\r' || c == '\n' || c == '\U{b}'
  }

  predicate Symbol(c: char) {
    c == '<' || c == '|' || c == '>' || c == '&' || c == ';' || c == '(' || c == ')'
  }

  predicate WordChar(c: char) {
    !White(c) && !Symbol(c) && c != '\0'
  }

  ghost predicate Line(s: string) {
    forall k :: 0 <= k < |s| ==> s[k] != '\0'
  }

  /** The character at position p; NUL at the end. */
  function Ch(s: string, p: nat): char {
    if p < |s| then s[p] else '\0'
  }

  // ----- tokens -----

  function Skip(s: string, p: nat): (r: nat)
    requires p <= |s|
    ensures p <= r <= |s| && !White(Ch(s, r)) && forall k :: p <= k < r ==> White(s[k])
    decreases |s| - p
  {
    if p < |s| && White(s[p]) then Skip(s, p + 1) else p
  }

  function WordEnd(s: string, p: nat): (r: nat)
    requires p <= |s|
    ensures p <= r <= |s| && (r < |s| ==> White(s[r]) || Symbol(s[r]))
    ensures forall k :: p <= k < r ==> !White(s[k]) && !Symbol(s[k])
    decreases |s| - p
  {
    if p < |s| && !White(s[p]) && !Symbol(s[p]) then WordEnd(s, p + 1) else p
  }

  /** kind is NUL, a symbol, '+' for >>, or 'a' for a word. */
  datatype Token = Token(kind: char, q: nat, eq: nat, next: nat)

  function GetToken(s: string, p: nat): (t: Token)
    requires p <= |s|
    ensures p <= t.q <= t.eq <= t.next <= |s|
    ensures t.kind != '\0' && Line(s) ==> t.q < t.eq
  {
    var q := Skip(s, p);
    var c := Ch(s, q);
    if c == '\0' then Token('\0', q, q, Skip(s, q))
    else if c == '>' && Ch(s, q + 1) == '>' then Token('+', q, q + 2, Skip(s, q + 2))
    else if Symbol(c) then Token(c, q, q + 1, Skip(s, q + 1))
    else Token('a', q, WordEnd(s, q), Skip(s, WordEnd(s, q)))
  }

  lemma {:induction false} SkipTwice(s: string, p: nat)
    requires p <= |s|
    ensures Skip(s, Skip(s, p)) == Skip(s, p) && GetToken(s, Skip(s, p)) == GetToken(s, p)
  {
  }

  /** The next character that is not white is one of toks. */
  predicate Peeks(s: string, p: nat, toks: string)
    requires p <= |s|
  {
    Ch(s, Skip(s, p)) != '\0' && Ch(s, Skip(s, p)) in toks
  }

  // ----- the parser -----

  datatype Redirect = Redirect(file: Span, mode: Mode)

  datatype Redirects = Redirects(list: seq<Redirect>, pos: nat) | BadRedirects

  /** The command with the redirections around it, the first innermost. */
  function Wrap(cmd: Cmd, rs: seq<Redirect>): Cmd {
    if rs == [] then cmd else Redir(Wrap(cmd, rs[..|rs| - 1]), rs[|rs| - 1].file, rs[|rs| - 1].mode)
  }

  /** The redirections from p on, behind those in rs. */
  function ParseRedirs(s: string, p: nat, rs: seq<Redirect>): (r: Redirects)
    requires Line(s) && p <= |s|
    ensures r.Redirects? ==> p <= r.pos <= |s|
    decreases |s| - p
  {
    if !Peeks(s, p, "<>") then Redirects(rs, Skip(s, p))
    else
      var tok := GetToken(s, p);
      var file := GetToken(s, tok.next);
      if file.kind != 'a' then BadRedirects
      else ParseRedirs(s, file.next, rs + [Redirect(Span(file.q, file.eq), if tok.kind == '<' then In else Out)])
  }

  /** The words and redirections of a simple command from p on. */
  function ParseArgs(s: string, p: nat, argv: seq<Span>, rs: seq<Redirect>): (r: Parsed)
    requires Line(s) && p <= |s|
    ensures r.Ok? ==> p <= r.pos <= |s|
    decreases |s| - p
  {
    if Peeks(s, p, "|)&;") then Ok(Wrap(Exec(argv), rs), Skip(s, p))
    else
      var tok := GetToken(s, p);
      if tok.kind == '\0' then Ok(Wrap(Exec(argv), rs), tok.next)
      else if tok.kind != 'a' || |argv| + 1 >= MAXARGS then Panic
      else match ParseRedirs(s, tok.next, rs)
        case BadRedirects => Panic
        case Redirects(rs', p') => ParseArgs(s, p', argv + [Span(tok.q, tok.eq)], rs')
  }

  function ParseExec(s: string, p: nat): (r: Parsed)
    requires Line(s) && p <= |s|
    ensures r.Ok? ==> p <= r.pos <= |s|
    decreases |s| - p, 1
  {
    if Peeks(s, p, "(") then ParseBlock(s, Skip(s, p))
    else match ParseRedirs(s, p, [])
      case BadRedirects => Panic
      case Redirects(rs, p') => ParseArgs(s, p', [], rs)
  }

  function ParseBlock(s: string, p: nat): (r: Parsed)
    requires Line(s) && p <= |s| && Peeks(s, p, "(")
    ensures r.Ok? ==> p <= r.pos <= |s|
    decreases |s| - p, 0
  {
    match ParseLine(s, GetToken(s, p).next)
    case Panic => Panic
    case Ok(cmd, p1) =>
      if !Peeks(s, p1, ")") then Panic
      else match ParseRedirs(s, GetToken(s, p1).next, [])
        case BadRedirects => Panic
        case Redirects(rs, p2) => Ok(Wrap(cmd, rs), p2)
  }

  function ParsePipe(s: string, p: nat): (r: Parsed)
    requires Line(s) && p <= |s|
    ensures r.Ok? ==> p <= r.pos <= |s|
    decreases |s| - p, 2
  {
    match ParseExec(s, p)
    case Panic => Panic
    case Ok(left, p1) =>
      if !Peeks(s, p1, "|") then Ok(left, Skip(s, p1))
      else match ParsePipe(s, GetToken(s, p1).next)
        case Panic => Panic
        case Ok(right, p2) => Ok(Pipe(left, right), p2)
  }

  /** The ampersands behind a pipeline. */
  function ParseBacks(s: string, p: nat, cmd: Cmd): (r: Parsed)
    requires Line(s) && p <= |s|
    ensures r.Ok? && p <= r.pos <= |s|
    decreases |s| - p
  {
    if Peeks(s, p, "&") then ParseBacks(s, GetToken(s, p).next, Back(cmd)) else Ok(cmd, Skip(s, p))
  }

  function ParseLine(s: string, p: nat): (r: Parsed)
    requires Line(s) && p <= |s|
    ensures r.Ok? ==> p <= r.pos <= |s|
    decreases |s| - p, 3
  {
    match ParsePipe(s, p)
    case Panic => Panic
    case Ok(cmd, p1) =>
      var b := ParseBacks(s, p1, cmd);
      if !Peeks(s, b.pos, ";") then b
      else match ParseLine(s, GetToken(s, b.pos).next)
        case Panic => Panic
        case Ok(right, p2) => Ok(List(b.cmd, right), p2)
  }

  /** parsecmd before nulterminate. */
  function ParseCmd(s: string): Parsed
    requires Line(s)
  {
    match ParseLine(s, 0)
    case Panic => Panic
    case Ok(cmd, p) => if Skip(s, p) == |s| then Ok(cmd, |s|) else Panic
  }
}
