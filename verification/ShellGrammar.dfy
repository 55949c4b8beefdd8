/** The command language of user/sh.c: what the parser computes on the text that is left. */
module ShellGrammar {
  const MAXARGS: nat := 10

  predicate White(c: char) { c in {' ', '\t', '\r', '\n', '\U{0b}'} }
  predicate Symbol(c: char) { c in {'<', '|', '>', '&', ';', '(', ')'} }
  predicate WordChar(c: char) { !White(c) && !Symbol(c) }

  /** Commands over words of type W.  Output redirection is to standard output, created if need be,
      for both `>` and `>>`. */
  datatype Cmd<W> =
    | Exec(argv: seq<W>)
    | Redir(cmd: Cmd<W>, file: W, output: bool)
    | Pipe(left: Cmd<W>, right: Cmd<W>)
    | List(left: Cmd<W>, right: Cmd<W>)
    | Back(cmd: Cmd<W>)

  /** A word of the line: its characters, and how far its end is from the end of the line.  The
      parser keeps a pair of pointers for it. */
  datatype Token = Token(text: string, to: nat)

  // ---- tokens

  function SkipWs(r: string): (w: string)
    ensures Suffix(w, r) && (w == [] || !White(w[0]))
  {
    if r == [] || !White(r[0]) then r else SkipWs(r[1..])
  }

  ghost predicate Suffix(w: string, r: string) { |w| <= |r| && r[|r| - |w|..] == w }

  function WordLen(w: string): (k: nat)
    ensures k <= |w| && (forall i :: 0 <= i < k ==> WordChar(w[i])) && (k < |w| ==> !WordChar(w[k]))
  {
    if w == [] || !WordChar(w[0]) then 0 else 1 + WordLen(w[1..])
  }

  datatype Tok = Tok(kind: char, word: Token, rest: string)

  /** How long the token at the front is: `>>` is one token. */
  function TokLen(w: string): (k: nat)
    ensures k <= |w| && (w != [] ==> k > 0)
  {
    if w == [] then 0 else if WordChar(w[0]) then WordLen(w) else if |w| > 1 && w[0] == '>' && w[1] == '>' then 2 else 1
  }

  /** Its kind: '\0' at the end, 'a' for a word, '+' for `>>`, else the symbol itself. */
  function TokKind(w: string): char
  {
    if w == [] then '\0' else if WordChar(w[0]) then 'a' else if TokLen(w) == 2 then '+' else w[0]
  }

  /** gettoken. */
  function GetTok(r: string): (t: Tok)
    ensures |t.rest| <= |r| && Suffix(t.rest, r)
    ensures SkipWs(r) != [] ==> |t.rest| < |r|
  {
    var w := SkipWs(r);
    var k := TokLen(w);
    SuffixDrop(w, r, k);
    SuffixTrans(SkipWs(w[k..]), w[k..], r);
    Tok(TokKind(w), Token(w[..k], |w| - k), SkipWs(w[k..]))
  }

  /** peek, apart from the white space it skips. */
  predicate Sees(r: string, toks: set<char>) { SkipWs(r) != [] && SkipWs(r)[0] in toks }

  lemma SuffixDrop(w: string, r: string, k: nat)
    requires Suffix(w, r) && k <= |w|
    ensures Suffix(w[k..], r)
  {
    assert r[|r| - |w|..][k..] == r[|r| - |w[k..]|..];
  }

  lemma SuffixTrans(a: string, b: string, c: string)
    requires Suffix(a, b) && Suffix(b, c)
    ensures Suffix(a, c)
  {
    assert c[|c| - |b|..][|b| - |a|..] == c[|c| - |a|..];
  }

  lemma {:induction false} SkipTwice(r: string)
    ensures SkipWs(SkipWs(r)) == SkipWs(r)
  {
    hide Suffix;
  }

  // ---- commands

  /** The outcome of a parsing function: the shell gives up, or a command and the text left. */
  datatype Parsed = Fail | Ok(cmd: Cmd<Token>, rest: string)

  datatype Redirect = Redirect(file: Token, output: bool)
  datatype Redirects = Bad | Good(list: seq<Redirect>, rest: string)

  function Wrap(c: Cmd<Token>, list: seq<Redirect>): Cmd<Token>
    decreases |list|
  {
    if list == [] then c else Wrap(Redir(c, list[0].file, list[0].output), list[1..])
  }

  /** parseredirs, as the list of redirections it wraps around its command. */
  function ParseRedirs(r: string): (p: Redirects)
    ensures p.Good? ==> |p.rest| <= |r| && Suffix(p.rest, r)
    decreases |r|
  {
    if !Sees(r, {'<', '>'}) then Good([], SkipWs(r))
    else
      var t := GetTok(r);
      var f := GetTok(t.rest);
      if f.kind != 'a' then Bad
      else match ParseRedirs(f.rest)
        case Bad => Bad
        case Good(l, rest) =>
          SuffixTrans(f.rest, t.rest, r);
          SuffixTrans(rest, f.rest, r);
          Good([Redirect(f.word, t.kind != '<')] + l, rest)
  }

  /** The argument loop of parseexec. */
  function ParseArgs(argv: seq<Token>, list: seq<Redirect>, r: string): (p: Parsed)
    ensures p.Ok? ==> |p.rest| <= |r| && Suffix(p.rest, r)
    decreases |r|
  {
    if Sees(r, {'|', ')', '&', ';'}) || SkipWs(r) == [] then Ok(Wrap(Exec(argv), list), SkipWs(r))
    else
      var t := GetTok(r);
      if t.kind != 'a' || |argv| + 1 >= MAXARGS then Fail
      else match ParseRedirs(t.rest)
        case Bad => Fail
        case Good(l, rest) =>
          SuffixTrans(rest, t.rest, r);
          var p := ParseArgs(argv + [t.word], list + l, rest);
          if p.Ok? then SuffixTrans(p.rest, rest, r); p else Fail
  }

  function ParseExec(r: string): (p: Parsed)
    ensures p.Ok? ==> |p.rest| <= |r| && Suffix(p.rest, r)
    decreases |r|, 1
  {
    if Sees(r, {'('}) then ParseBlock(r)
    else match ParseRedirs(r)
      case Bad => Fail
      case Good(l, rest) =>
        var p := ParseArgs([], l, rest);
        if p.Ok? then SuffixTrans(p.rest, rest, r); p else Fail
  }

  function ParseBlock(r: string): (p: Parsed)
    requires Sees(r, {'('})
    ensures p.Ok? ==> |p.rest| <= |r| && Suffix(p.rest, r)
    decreases |r|, 0
  {
    var t := GetTok(r);
    match ParseLine(t.rest)
    case Fail => Fail
    case Ok(c, r1) =>
      if !Sees(r1, {')'}) then Fail
      else
        var u := GetTok(r1);
        match ParseRedirs(u.rest)
        case Bad => Fail
        case Good(l, rest) =>
          SuffixTrans(r1, t.rest, r);
          SuffixTrans(u.rest, r1, r);
          SuffixTrans(rest, u.rest, r);
          Ok(Wrap(c, l), rest)
  }

  function ParsePipe(r: string): (p: Parsed)
    ensures p.Ok? ==> |p.rest| <= |r| && Suffix(p.rest, r)
    decreases |r|, 2
  {
    match ParseExec(r)
    case Fail => Fail
    case Ok(c, r1) =>
      if !Sees(r1, {'|'}) then SuffixTrans(SkipWs(r1), r1, r); Ok(c, SkipWs(r1))
      else
        var t := GetTok(r1);
        match ParsePipe(t.rest)
        case Fail => Fail
        case Ok(d, rest) =>
          SuffixTrans(t.rest, r1, r);
          SuffixTrans(rest, t.rest, r);
          Ok(Pipe(c, d), rest)
  }

  /** The `&` loop of parseline. */
  function ParseBacks(c: Cmd<Token>, r: string): (p: Parsed)
    ensures p.Ok? && |p.rest| <= |r| && Suffix(p.rest, r)
    decreases |r|
  {
    if !Sees(r, {'&'}) then Ok(c, SkipWs(r))
    else
      var t := GetTok(r);
      var p := ParseBacks(Back(c), t.rest);
      SuffixTrans(p.rest, t.rest, r);
      p
  }

  function ParseLine(r: string): (p: Parsed)
    ensures p.Ok? ==> |p.rest| <= |r| && Suffix(p.rest, r)
    decreases |r|, 3
  {
    match ParsePipe(r)
    case Fail => Fail
    case Ok(c, r1) =>
      var b := ParseBacks(c, r1);
      SuffixTrans(b.rest, r1, r);
      if !Sees(b.rest, {';'}) then SuffixTrans(SkipWs(b.rest), b.rest, r); Ok(b.cmd, SkipWs(b.rest))
      else
        var t := GetTok(b.rest);
        match ParseLine(t.rest)
        case Fail => Fail
        case Ok(d, rest) =>
          SuffixTrans(t.rest, b.rest, r);
          SuffixTrans(rest, t.rest, r);
          Ok(List(b.cmd, d), rest)
  }

  /** parsecmd up to nulterminate: the whole line must be used. */
  function ParseCmd(s: string): Parsed
  {
    var p := ParseLine(s);
    if p.Ok? && SkipWs(p.rest) == [] then Ok(p.cmd, []) else Fail
  }
}
