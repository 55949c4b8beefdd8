/** The language of user/sh.c as a grammar over lexemes, with what each form means.  The parser
    accepts exactly the lines of the grammar, and answers with their meaning. */
module ShellSyntax {
  import opened Options
  import opened ShellGrammar

  // ---- lexemes

  /** 'a' and the word itself, '+' for `>>`, or a symbol. */
  datatype Lexeme = Lexeme(kind: char, text: string)

  function Sym(c: char): Lexeme { Lexeme(c, if c == '+' then ">>" else [c]) }

  /** The line as gettoken cuts it. */
  function Lexemes(r: string): seq<Lexeme>
    decreases |r|
  {
    if SkipWs(r) == [] then []
    else
      var t := GetTok(r);
      [Lexeme(t.kind, t.word.text)] + Lexemes(t.rest)
  }

  predicate Heads(ls: seq<Lexeme>, kinds: set<char>) { ls != [] && ls[0].kind in kinds }

  lemma {:induction false} Front(r: string)
    ensures Lexemes(r) == [] <==> SkipWs(r) == []
    ensures Lexemes(r) != [] ==>
      Lexemes(r)[0] == Lexeme(GetTok(r).kind, GetTok(r).word.text) && Lexemes(r)[1..] == Lexemes(GetTok(r).rest)
  {
    hide GetTok, SkipWs, Suffix;
  }

  /** peek sees what the first lexeme begins with. */
  lemma {:induction false} Seen(r: string, toks: set<char>)
    requires forall c :: c in toks ==> Symbol(c)
    ensures Sees(r, toks) <==> Heads(Lexemes(r), if '>' in toks then toks + {'+'} else toks)
  {
    Front(r);
    HeadKind(SkipWs(r), toks);
    hide SkipWs, Suffix, TokKind, TokLen, Lexemes, White, Symbol;
  }

  lemma HeadKind(w: string, toks: set<char>)
    requires w == [] || !White(w[0])
    requires forall c :: c in toks ==> Symbol(c)
    ensures w != [] ==> (w[0] in toks <==> TokKind(w) in if '>' in toks then toks + {'+'} else toks)
  {
    hide WordLen, White;
    if w != [] {
      assert !Symbol('a') && !Symbol('+') && (WordChar(w[0]) || Symbol(w[0]));
    }
  }

  lemma {:induction false} SkipLexemes(r: string)
    ensures Lexemes(SkipWs(r)) == Lexemes(r)
  {
    hide Suffix, SkipWs;
    SkipTwice(r);
    assert GetTok(SkipWs(r)) == GetTok(r);
  }

  // ---- the grammar

  /** A word of a simple command or a redirection, by `<`, `>` or '+' for `>>`. */
  datatype Item = Arg(word: string) | File(name: string, kind: char)

  /** A simple command has words and redirections in any order, a group has redirections behind it. */
  datatype Atom = Simple(items: seq<Item>) | Group(inside: Line, files: seq<Item>)
  datatype Pipeline = Single(atom: Atom) | Piped(atom: Atom, next: Pipeline)
  datatype Line = Line(first: Pipeline, amps: nat, next: Option<Line>)

  predicate IsFile(i: Item) { i.File? && i.kind in {'<', '>', '+'} }
  predicate AllFiles(items: seq<Item>) { forall i :: 0 <= i < |items| ==> IsFile(items[i]) }
  predicate AllItems(items: seq<Item>) { forall i :: 0 <= i < |items| ==> items[i].Arg? || IsFile(items[i]) }

  /** The words of a simple command, in order, and its redirections, in order. */
  function Args(items: seq<Item>): seq<string>
  {
    if items == [] then [] else (if items[0].Arg? then [items[0].word] else []) + Args(items[1..])
  }

  function Files(items: seq<Item>): seq<Item>
  {
    if items == [] then [] else (if items[0].File? then [items[0]] else []) + Files(items[1..])
  }

  predicate WfAtom(a: Atom)
  {
    match a
    case Simple(items) => AllItems(items) && |Args(items)| < MAXARGS
    case Group(l, files) => WfLine(l) && AllFiles(files)
  }

  predicate WfPipeline(p: Pipeline) { WfAtom(p.atom) && (p.Piped? ==> WfPipeline(p.next)) }
  predicate WfLine(l: Line) { WfPipeline(l.first) && (l.next.Some? ==> WfLine(l.next.value)) }

  // ---- how it is written

  function ItemText(i: Item): seq<Lexeme>
  {
    match i case Arg(w) => [Lexeme('a', w)] case File(f, kind) => [Sym(kind), Lexeme('a', f)]
  }

  function ItemsText(items: seq<Item>): seq<Lexeme>
  {
    if items == [] then [] else ItemText(items[0]) + ItemsText(items[1..])
  }

  function AtomText(a: Atom): seq<Lexeme>
  {
    match a
    case Simple(items) => ItemsText(items)
    case Group(l, files) => [Sym('(')] + LineText(l) + [Sym(')')] + ItemsText(files)
  }

  function PipelineText(p: Pipeline): seq<Lexeme>
  {
    match p case Single(a) => AtomText(a) case Piped(a, next) => AtomText(a) + [Sym('|')] + PipelineText(next)
  }

  function LineText(l: Line): seq<Lexeme>
  {
    PipelineText(l.first) + seq(l.amps, _ => Sym('&')) +
    match l.next case None => [] case Some(next) => [Sym(';')] + LineText(next)
  }

  // ---- what it means

  /** Redirections apply in order: the last one is outermost. */
  function Redirected(c: Cmd<string>, files: seq<Item>): Cmd<string>
    requires AllFiles(files)
  {
    if files == [] then c
    else
      var n := |files| - 1;
      Redir(Redirected(c, files[..n]), files[n].name, files[n].kind != '<')
  }

  function AtomMeans(a: Atom): Cmd<string>
    requires WfAtom(a)
  {
    match a
    case Simple(items) => FilesAre(items); Redirected(Exec(Args(items)), Files(items))
    case Group(l, files) => Redirected(LineMeans(l), files)
  }

  function PipelineMeans(p: Pipeline): Cmd<string>
    requires WfPipeline(p)
  {
    match p case Single(a) => AtomMeans(a) case Piped(a, next) => Pipe(AtomMeans(a), PipelineMeans(next))
  }

  function Backs(c: Cmd<string>, n: nat): Cmd<string> { if n == 0 then c else Back(Backs(c, n - 1)) }

  function LineMeans(l: Line): Cmd<string>
    requires WfLine(l)
  {
    var c := Backs(PipelineMeans(l.first), l.amps);
    match l.next case None => c case Some(next) => List(c, LineMeans(next))
  }

  lemma {:induction false} FilesAre(items: seq<Item>)
    requires AllItems(items)
    ensures AllFiles(Files(items))
  {
    if items != [] { FilesAre(items[1..]); }
  }

  /** The command with the characters of its words only. */
  function Texts(c: Cmd<Token>): Cmd<string>
  {
    match c
    case Exec(argv) => Exec(seq(|argv|, i requires 0 <= i < |argv| => argv[i].text))
    case Redir(d, f, out) => Redir(Texts(d), f.text, out)
    case Pipe(l, r) => Pipe(Texts(l), Texts(r))
    case List(l, r) => List(Texts(l), Texts(r))
    case Back(d) => Back(Texts(d))
  }

  // ---- items

  lemma {:induction false} ItemFirst(items: seq<Item>, k: seq<Lexeme>)
    requires items != []
    ensures ItemsText(items) + k == ItemText(items[0]) + (ItemsText(items[1..]) + k)
  {
  }

  /** The redirections in front of the next word, and the rest. */
  lemma {:induction false} LeadSplit(items: seq<Item>, k: seq<Lexeme>) returns (files: seq<Item>, rest: seq<Item>)
    requires AllItems(items)
    ensures AllFiles(files) && AllItems(rest) && (rest == [] || rest[0].Arg?) && |rest| <= |items|
    ensures ItemsText(items) + k == ItemsText(files) + (ItemsText(rest) + k)
    ensures Args(items) == Args(rest) && Files(items) == files + Files(rest)
  {
    if items == [] || items[0].Arg? {
      files, rest := [], items;
    } else {
      var f: seq<Item>;
      f, rest := LeadSplit(items[1..], k);
      files := [items[0]] + f;
      assert files[1..] == f;
      hide AllItems, AllFiles, ItemsText;
      ItemFirst(items, k);
      ItemFirst(files, ItemsText(rest) + k);
    }
  }

  ghost predicate Matches(l: seq<Redirect>, files: seq<Item>)
  {
    |l| == |files| && forall i :: 0 <= i < |l| ==>
      files[i].File? && l[i].file.text == files[i].name && l[i].output == (files[i].kind != '<')
  }

  lemma MatchesJoin(l: seq<Redirect>, files: seq<Item>, more: seq<Redirect>, rest: seq<Item>)
    requires Matches(l, files) && Matches(more, rest) && AllFiles(files) && AllFiles(rest)
    ensures Matches(l + more, files + rest) && AllFiles(files + rest)
  {
  }

  ghost predicate Spells(ts: seq<Token>, ws: seq<string>)
  {
    |ts| == |ws| && forall i :: 0 <= i < |ts| ==> ts[i].text == ws[i]
  }

  lemma SpellsMore(ts: seq<Token>, ws: seq<string>, t: Token)
    requires Spells(ts, ws)
    ensures Spells(ts + [t], ws + [t.text])
  {
  }

  lemma {:induction false} WrapLast(c: Cmd<Token>, l: seq<Redirect>)
    requires l != []
    ensures var n := |l| - 1; Wrap(c, l) == Redir(Wrap(c, l[..n]), l[n].file, l[n].output)
    decreases |l|
  {
    if |l| > 1 {
      WrapLast(Redir(c, l[0].file, l[0].output), l[1..]);
      assert l[..|l| - 1][1..] == l[1..][..|l| - 2];
    }
  }

  /** The wrapped command is the redirected one. */
  lemma {:induction false} WrapMeans(c: Cmd<Token>, l: seq<Redirect>, files: seq<Item>)
    requires AllFiles(files) && Matches(l, files)
    ensures Texts(Wrap(c, l)) == Redirected(Texts(c), files)
    decreases |l|
  {
    if l != [] {
      hide Wrap;
      WrapLast(c, l);
      WrapMeans(c, l[..|l| - 1], files[..|l| - 1]);
    }
  }

  lemma ExecMeans(ts: seq<Token>, ws: seq<string>)
    requires Spells(ts, ws)
    ensures Texts(Exec(ts)) == Exec(ws)
  {
    assert Texts(Exec(ts)).argv == ws;
  }

  // ---- every line of the grammar is read as what it means

  /** What ends a simple command. */
  predicate EndsItems(k: seq<Lexeme>) { k == [] || Heads(k, {'|', ')', '&', ';'}) }
  predicate EndsPipeline(k: seq<Lexeme>) { k == [] || Heads(k, {')', '&', ';'}) }
  predicate EndsLine(k: seq<Lexeme>) { k == [] || Heads(k, {')'}) }

  lemma {:induction false} ReadsFiles(r: string, files: seq<Item>, k: seq<Lexeme>)
    requires AllFiles(files) && Lexemes(r) == ItemsText(files) + k && !Heads(k, {'<', '>', '+'})
    ensures var p := ParseRedirs(r); p.Good? && Matches(p.list, files) && Lexemes(p.rest) == k
    decreases |files|
  {
    hide GetTok, SkipWs, Suffix, Lexemes;
    Seen(r, {'<', '>'});
    if files == [] {
      SkipLexemes(r);
    } else {
      var rest := ItemsText(files[1..]) + k;
      ItemFirst(files, k);
      hide ItemsText;
      var t := GetTok(r);
      Front(r);
      assert Lexemes(t.rest) == [Lexeme('a', files[0].name)] + rest;
      var f := GetTok(t.rest);
      Front(t.rest);
      assert Lexemes(f.rest) == rest;
      ReadsFiles(f.rest, files[1..], k);
    }
  }

  lemma {:induction false} ArgsEnd(argv: seq<Token>, l: seq<Redirect>, r: string)
    requires EndsItems(Lexemes(r))
    ensures ParseArgs(argv, l, r) == Ok(Wrap(Exec(argv), l), SkipWs(r)) && Lexemes(SkipWs(r)) == Lexemes(r)
  {
    hide GetTok, SkipWs, Suffix, Lexemes, Wrap;
    Seen(r, {'|', ')', '&', ';'});
    Front(r);
    SkipLexemes(r);
  }

  lemma {:induction false} ReadsEnd(argv: seq<Token>, l: seq<Redirect>, ws: seq<string>, fs: seq<Item>, r: string)
    requires Spells(argv, ws) && Matches(l, fs) && AllFiles(fs) && EndsItems(Lexemes(r))
    ensures var p := ParseArgs(argv, l, r);
      p.Ok? && Lexemes(p.rest) == Lexemes(r) && Texts(p.cmd) == Redirected(Exec(ws), fs)
  {
    hide *;
    ArgsEnd(argv, l, r);
    WrapMeans(Exec(argv), l, fs);
    ExecMeans(argv, ws);
  }

  /** One turn of the argument loop: a word and the redirections behind it. */
  lemma {:induction false} ArgsTurn(argv: seq<Token>, l: seq<Redirect>, r: string, w: string, files: seq<Item>,
    k: seq<Lexeme>)
    requires |argv| + 1 < MAXARGS && AllFiles(files) && !Heads(k, {'<', '>', '+'})
    requires Lexemes(r) == [Lexeme('a', w)] + (ItemsText(files) + k)
    ensures var t := GetTok(r);
      var p := ParseRedirs(t.rest);
      && t.word.text == w && p.Good? && Matches(p.list, files) && Lexemes(p.rest) == k
      && ParseArgs(argv, l, r) == ParseArgs(argv + [t.word], l + p.list, p.rest)
  {
    hide GetTok, SkipWs, Suffix, Lexemes, ParseRedirs, Matches, Wrap, ItemsText;
    Seen(r, {'|', ')', '&', ';'});
    Front(r);
    ReadsFiles(GetTok(r).rest, files, k);
  }

  /** The argument loop reads words and redirections in any order. */
  lemma {:induction false} ReadsArgs(argv: seq<Token>, l: seq<Redirect>, ws: seq<string>, fs: seq<Item>,
    r: string, items: seq<Item>, k: seq<Lexeme>)
    requires Spells(argv, ws) && Matches(l, fs) && AllFiles(fs)
    requires AllItems(items) && (items == [] || items[0].Arg?) && |argv| + |Args(items)| < MAXARGS
    requires Lexemes(r) == ItemsText(items) + k && EndsItems(k)
    ensures var p := ParseArgs(argv, l, r);
      && AllFiles(fs + Files(items)) && p.Ok? && Lexemes(p.rest) == k
      && Texts(p.cmd) == Redirected(Exec(ws + Args(items)), fs + Files(items))
    decreases |items|
  {
    if items == [] {
      hide ParseArgs, Lexemes, SkipWs, GetTok, Suffix, Redirected, Texts, Wrap, Matches, Spells, AllFiles, AllItems;
      assert Lexemes(r) == k;
      ReadsEnd(argv, l, ws, fs, r);
      assert ws + [] == ws && fs + [] == fs;
    } else {
      hide *;
      var w, files, rest := ArgSplit(items, k);
      ArgsTurn(argv, l, r, w, files, ItemsText(rest) + k);
      var t := GetTok(r);
      var p := ParseRedirs(t.rest);
      MatchesJoin(l, fs, p.list, files);
      SpellsMore(argv, ws, t.word);
      ReadsArgs(argv + [t.word], l + p.list, ws + [w], fs + files, p.rest, rest, k);
      Associative(ws, [w], Args(rest));
      Associative(fs, files, Files(rest));
    }
  }

  lemma Associative<T>(a: seq<T>, b: seq<T>, c: seq<T>)
    ensures a + b + c == a + (b + c)
  {
  }

  lemma {:induction false} ArgSplit(items: seq<Item>, k: seq<Lexeme>)
    returns (w: string, files: seq<Item>, rest: seq<Item>)
    requires AllItems(items) && items != [] && items[0].Arg? && EndsItems(k)
    ensures AllFiles(files) && AllItems(rest) && (rest == [] || rest[0].Arg?) && |rest| < |items|
    ensures Args(items) == [w] + Args(rest) && Files(items) == files + Files(rest)
    ensures ItemsText(items) + k == [Lexeme('a', w)] + (ItemsText(files) + (ItemsText(rest) + k))
    ensures !Heads(ItemsText(rest) + k, {'<', '>', '+'})
  {
    w := items[0].word;
    files, rest := LeadSplit(items[1..], k);
    hide ItemsText, AllFiles, AllItems;
    ItemFirst(items, k);
    StopsFiles(rest, k);
  }

  lemma {:induction false} StopsFiles(rest: seq<Item>, k: seq<Lexeme>)
    requires (rest == [] || rest[0].Arg?) && EndsItems(k)
    ensures !Heads(ItemsText(rest) + k, {'<', '>', '+'})
  {
  }

  lemma {:induction false} NotGroup(items: seq<Item>, k: seq<Lexeme>)
    requires AllItems(items) && EndsItems(k)
    ensures !Heads(ItemsText(items) + k, {'('})
  {
  }

  lemma {:induction false} ReadsSimple(r: string, items: seq<Item>, k: seq<Lexeme>)
    requires WfAtom(Simple(items)) && Lexemes(r) == ItemsText(items) + k && EndsItems(k)
    ensures var p := ParseExec(r); p.Ok? && Texts(p.cmd) == AtomMeans(Simple(items)) && Lexemes(p.rest) == k
  {
    hide GetTok, SkipWs, Suffix, Lexemes, ParseRedirs, ParseArgs, Wrap, ItemsText, Args, Files, Redirected, Texts;
    Seen(r, {'('});
    NotGroup(items, k);
    var files, rest := LeadSplit(items, k);
    StopsFiles(rest, k);
    ReadsFiles(r, files, ItemsText(rest) + k);
    var p := ParseRedirs(r);
    ReadsArgs([], p.list, [], files, p.rest, rest, k);
    assert [] + Args(rest) == Args(items);
  }

  lemma {:induction false} ReadsAtom(r: string, a: Atom, k: seq<Lexeme>)
    requires WfAtom(a) && Lexemes(r) == AtomText(a) + k && EndsItems(k)
    ensures var p := ParseExec(r); p.Ok? && Texts(p.cmd) == AtomMeans(a) && Lexemes(p.rest) == k
    decreases a
  {
    hide GetTok, SkipWs, Suffix, Lexemes, ParseLine, ParseRedirs, ParseArgs, Wrap, ItemsText, LineText;
    hide Redirected, Texts, LineMeans;
    if a.Simple? {
      ReadsSimple(r, a.items, k);
    } else {
      var k1 := ItemsText(a.files) + k;
      assert Lexemes(r) == [Sym('(')] + (LineText(a.inside) + ([Sym(')')] + k1));
      Seen(r, {'('});
      Front(r);
      var t := GetTok(r);
      ReadsLine(t.rest, a.inside, [Sym(')')] + k1);
      var p := ParseLine(t.rest);
      Seen(p.rest, {')'});
      Front(p.rest);
      var u := GetTok(p.rest);
      ReadsFiles(u.rest, a.files, k);
      WrapMeans(p.cmd, ParseRedirs(u.rest).list, a.files);
    }
  }

  lemma {:induction false} ReadsPipeline(r: string, p: Pipeline, k: seq<Lexeme>)
    requires WfPipeline(p) && Lexemes(r) == PipelineText(p) + k && EndsPipeline(k)
    ensures var q := ParsePipe(r); q.Ok? && Texts(q.cmd) == PipelineMeans(p) && Lexemes(q.rest) == k
    decreases p
  {
    hide GetTok, SkipWs, Suffix, Lexemes, ParseExec, AtomText, AtomMeans;
    if p.Single? {
      ReadsAtom(r, p.atom, k);
      var q := ParseExec(r);
      Seen(q.rest, {'|'});
      SkipLexemes(q.rest);
    } else {
      var k1 := [Sym('|')] + (PipelineText(p.next) + k);
      assert Lexemes(r) == AtomText(p.atom) + k1;
      ReadsAtom(r, p.atom, k1);
      var q := ParseExec(r);
      Seen(q.rest, {'|'});
      Front(q.rest);
      ReadsPipeline(GetTok(q.rest).rest, p.next, k);
    }
  }

  lemma {:induction false} BacksInner(c: Cmd<string>, n: nat)
    ensures Backs(Back(c), n) == Back(Backs(c, n))
  {
    if n > 0 { BacksInner(c, n - 1); }
  }

  lemma {:induction false} ReadsAmps(c: Cmd<Token>, r: string, n: nat, k: seq<Lexeme>)
    requires Lexemes(r) == seq(n, _ => Sym('&')) + k && !Heads(k, {'&'})
    ensures var p := ParseBacks(c, r); Texts(p.cmd) == Backs(Texts(c), n) && Lexemes(p.rest) == k
    decreases n
  {
    hide GetTok, SkipWs, Suffix, Lexemes;
    Seen(r, {'&'});
    if n == 0 {
      SkipLexemes(r);
    } else {
      assert Lexemes(r) == [Sym('&')] + (seq(n - 1, _ => Sym('&')) + k);
      Front(r);
      ReadsAmps(Back(c), GetTok(r).rest, n - 1, k);
      BacksInner(Texts(c), n - 1);
    }
  }

  lemma {:induction false} ReadsLine(r: string, l: Line, k: seq<Lexeme>)
    requires WfLine(l) && Lexemes(r) == LineText(l) + k && EndsLine(k)
    ensures var p := ParseLine(r); p.Ok? && Texts(p.cmd) == LineMeans(l) && Lexemes(p.rest) == k
    decreases l
  {
    hide GetTok, SkipWs, Suffix, Lexemes, ParsePipe, ParseBacks, PipelineText, PipelineMeans, Backs;
    var amps := seq(l.amps, _ => Sym('&'));
    var k1 := if l.next.None? then k else [Sym(';')] + (LineText(l.next.value) + k);
    assert Lexemes(r) == PipelineText(l.first) + (amps + k1);
    ReadsPipeline(r, l.first, amps + k1);
    var p := ParsePipe(r);
    ReadsAmps(p.cmd, p.rest, l.amps, k1);
    var b := ParseBacks(p.cmd, p.rest);
    Seen(b.rest, {';'});
    if l.next.None? {
      SkipLexemes(b.rest);
    } else {
      Front(b.rest);
      ReadsLine(GetTok(b.rest).rest, l.next.value, k);
    }
  }

  // ---- every line that is read is one of the grammar

  lemma {:induction false} FilesFrom(r: string) returns (files: seq<Item>)
    requires ParseRedirs(r).Good?
    ensures var p := ParseRedirs(r);
      AllFiles(files) && Matches(p.list, files) && Lexemes(r) == ItemsText(files) + Lexemes(p.rest)
    decreases |r|
  {
    hide GetTok, SkipWs, Suffix, Lexemes;
    Seen(r, {'<', '>'});
    Front(r);
    if !Sees(r, {'<', '>'}) {
      files := [];
      SkipLexemes(r);
    } else {
      var t := GetTok(r);
      var f := GetTok(t.rest);
      FileKind(r);
      Front(t.rest);
      Ends(t.rest);
      var more := FilesFrom(f.rest);
      files := [File(f.word.text, t.kind)] + more;
      assert files[1..] == more;
    }
  }

  /** The lexeme of a redirection is its symbol. */
  lemma {:induction false} FileKind(r: string)
    requires Sees(r, {'<', '>'})
    ensures var t := GetTok(r); t.kind in {'<', '>', '+'} && Lexeme(t.kind, t.word.text) == Sym(t.kind)
  {
    hide SkipWs, Suffix, WordLen;
    var w := SkipWs(r);
    assert w[..1] == [w[0]];
    if |w| > 1 { assert w[..2] == [w[0], w[1]]; }
  }

  lemma {:induction false} SymbolKind(r: string, c: char)
    requires Sees(r, {c}) && Symbol(c) && c != '>'
    ensures var t := GetTok(r); t.kind == c && Lexeme(t.kind, t.word.text) == Sym(c)
  {
    hide SkipWs, Suffix, WordLen;
    var w := SkipWs(r);
    assert w[..1] == [w[0]];
  }

  /** A word is not the end of the line. */
  lemma {:induction false} Ends(r: string)
    requires GetTok(r).kind == 'a'
    ensures SkipWs(r) != []
  {
    hide SkipWs, Suffix;
  }

  lemma {:induction false} LeadJoin(files: seq<Item>, rest: seq<Item>)
    requires AllFiles(files)
    ensures ItemsText(files + rest) == ItemsText(files) + ItemsText(rest)
    ensures Args(files + rest) == Args(rest) && Files(files + rest) == files + Files(rest)
  {
    if files == [] {
      assert files + rest == rest;
    } else {
      assert (files + rest)[1..] == files[1..] + rest && (files + rest)[0] == files[0];
      LeadJoin(files[1..], rest);
      hide AllFiles;
      assert Files(files + rest) == [files[0]] + (files[1..] + Files(rest));
      hide Args, Files;
      Associative(ItemText(files[0]), ItemsText(files[1..]), ItemsText(rest));
    }
  }

  /** A word, the redirections behind it, and more items. */
  lemma {:induction false} ArgJoin(w: string, files: seq<Item>, rest: seq<Item>, items: seq<Item>, k: seq<Lexeme>)
    requires AllFiles(files) && AllItems(rest) && items == [Arg(w)] + (files + rest)
    ensures AllItems(items) && Args(items) == [w] + Args(rest) && Files(items) == files + Files(rest)
    ensures ItemsText(items) + k == [Lexeme('a', w)] + (ItemsText(files) + (ItemsText(rest) + k))
  {
    LeadJoin(files, rest);
    assert items[1..] == files + rest;
    ItemFirst(items, k);
    hide ItemsText, Args, Files;
    Associative(ItemsText(files), ItemsText(rest), k);
  }

  lemma {:induction false} ArgsFrom(argv: seq<Token>, l: seq<Redirect>, ws: seq<string>, fs: seq<Item>, r: string)
    returns (items: seq<Item>)
    requires Spells(argv, ws) && Matches(l, fs) && AllFiles(fs) && |argv| < MAXARGS && ParseArgs(argv, l, r).Ok?
    ensures AllItems(items) && |argv| + |Args(items)| < MAXARGS && AllFiles(fs + Files(items))
    ensures var p := ParseArgs(argv, l, r);
      && Lexemes(r) == ItemsText(items) + Lexemes(p.rest)
      && Texts(p.cmd) == Redirected(Exec(ws + Args(items)), fs + Files(items))
    decreases |r|
  {
    hide GetTok, SkipWs, Suffix, Lexemes, ParseRedirs, Wrap, Redirected, Texts, Matches, Spells, AllFiles;
    if Sees(r, {'|', ')', '&', ';'}) || SkipWs(r) == [] {
      SkipLexemes(r);
      items := [];
      assert ws + [] == ws && fs + [] == fs;
      WrapMeans(Exec(argv), l, fs);
      ExecMeans(argv, ws);
    } else {
      var t := GetTok(r);
      Front(r);
      var files := FilesFrom(t.rest);
      var p := ParseRedirs(t.rest);
      var w, k := t.word.text, Lexemes(ParseArgs(argv, l, r).rest);
      assert ParseArgs(argv, l, r) == ParseArgs(argv + [t.word], l + p.list, p.rest);
      hide *;
      MatchesJoin(l, fs, p.list, files);
      SpellsMore(argv, ws, t.word);
      var rest := ArgsFrom(argv + [t.word], l + p.list, ws + [w], fs + files, p.rest);
      items := [Arg(w)] + (files + rest);
      ArgJoin(w, files, rest, items, k);
      Associative(ws, [w], Args(rest));
      Associative(fs, files, Files(rest));
    }
  }

  lemma {:induction false} SimpleFrom(r: string) returns (items: seq<Item>)
    requires !Sees(r, {'('}) && ParseExec(r).Ok?
    ensures var p := ParseExec(r);
      && WfAtom(Simple(items)) && Texts(p.cmd) == AtomMeans(Simple(items))
      && Lexemes(r) == ItemsText(items) + Lexemes(p.rest)
  {
    hide GetTok, SkipWs, Suffix, Lexemes, ParseRedirs, ParseArgs, Wrap, ItemsText, Args, Files, Redirected, Texts;
    var files := FilesFrom(r);
    var q := ParseRedirs(r);
    var rest := ArgsFrom([], q.list, [], files, q.rest);
    items := files + rest;
    LeadJoin(files, rest);
    assert [] + Args(rest) == Args(items);
  }

  lemma {:induction false} AtomFrom(r: string) returns (a: Atom)
    requires ParseExec(r).Ok?
    ensures var p := ParseExec(r);
      WfAtom(a) && Texts(p.cmd) == AtomMeans(a) && Lexemes(r) == AtomText(a) + Lexemes(p.rest)
    decreases |r|, 1
  {
    hide GetTok, SkipWs, Suffix, Lexemes, ParseLine, ParseRedirs, ParseArgs, Wrap, ItemsText, LineText;
    hide Redirected, Texts, LineMeans;
    if !Sees(r, {'('}) {
      var items := SimpleFrom(r);
      a := Simple(items);
    } else {
      Front(r);
      SymbolKind(r, '(');
      var t := GetTok(r);
      var inside := LineFrom(t.rest);
      var p := ParseLine(t.rest);
      Front(p.rest);
      SymbolKind(p.rest, ')');
      var u := GetTok(p.rest);
      var files := FilesFrom(u.rest);
      a := Group(inside, files);
      WrapMeans(p.cmd, ParseRedirs(u.rest).list, files);
    }
  }

  lemma {:induction false} PipelineFrom(r: string) returns (p: Pipeline)
    requires ParsePipe(r).Ok?
    ensures var q := ParsePipe(r);
      WfPipeline(p) && Texts(q.cmd) == PipelineMeans(p) && Lexemes(r) == PipelineText(p) + Lexemes(q.rest)
    decreases |r|, 2
  {
    hide GetTok, SkipWs, Suffix, Lexemes, ParseExec, AtomText, AtomMeans;
    var a := AtomFrom(r);
    var q := ParseExec(r);
    if Sees(q.rest, {'|'}) {
      Front(q.rest);
      SymbolKind(q.rest, '|');
      var next := PipelineFrom(GetTok(q.rest).rest);
      p := Piped(a, next);
    } else {
      SkipLexemes(q.rest);
      p := Single(a);
    }
  }

  lemma {:induction false} AmpsFrom(c: Cmd<Token>, r: string) returns (n: nat)
    ensures var p := ParseBacks(c, r);
      Texts(p.cmd) == Backs(Texts(c), n) && Lexemes(r) == seq(n, _ => Sym('&')) + Lexemes(p.rest)
    decreases |r|
  {
    hide GetTok, SkipWs, Suffix, Lexemes;
    if Sees(r, {'&'}) {
      Front(r);
      SymbolKind(r, '&');
      var m := AmpsFrom(Back(c), GetTok(r).rest);
      n := m + 1;
      BacksInner(Texts(c), m);
      assert seq(n, _ => Sym('&')) == [Sym('&')] + seq(m, _ => Sym('&'));
    } else {
      SkipLexemes(r);
      n := 0;
    }
  }

  lemma {:induction false} LineFrom(r: string) returns (l: Line)
    requires ParseLine(r).Ok?
    ensures var p := ParseLine(r);
      WfLine(l) && Texts(p.cmd) == LineMeans(l) && Lexemes(r) == LineText(l) + Lexemes(p.rest)
    decreases |r|, 3
  {
    hide GetTok, SkipWs, Suffix, Lexemes, ParsePipe, ParseBacks, PipelineText, PipelineMeans, Backs;
    var first := PipelineFrom(r);
    var p := ParsePipe(r);
    var n := AmpsFrom(p.cmd, p.rest);
    var b := ParseBacks(p.cmd, p.rest);
    if Sees(b.rest, {';'}) {
      Front(b.rest);
      SymbolKind(b.rest, ';');
      var next := LineFrom(GetTok(b.rest).rest);
      l := Line(first, n, Some(next));
    } else {
      SkipLexemes(b.rest);
      l := Line(first, n, None);
    }
  }

  // ---- the language

  /** The line is accepted as the command `c`. */
  predicate ParsesTo(line: string, c: Cmd<string>) { ParseCmd(line).Ok? && Texts(ParseCmd(line).cmd) == c }

  /** A line that the grammar writes is accepted, with its meaning. */
  lemma {:induction false} Accepted(s: string, l: Line)
    requires WfLine(l) && Lexemes(s) == LineText(l)
    ensures ParsesTo(s, LineMeans(l))
  {
    hide ParseLine, SkipWs, GetTok, Suffix, LineText;
    assert LineText(l) + [] == LineText(l);
    ReadsLine(s, l, []);
    Front(ParseLine(s).rest);
  }

  /** A line is accepted as a command exactly if the grammar writes it and means that command. */
  lemma {:induction false} Language(s: string, c: Cmd<string>)
    ensures ParsesTo(s, c) <==> exists l :: WfLine(l) && LineText(l) == Lexemes(s) && LineMeans(l) == c
  {
    hide ParseLine, SkipWs, GetTok, Suffix, LineText, LineMeans, Lexemes;
    if ParsesTo(s, c) {
      var l := LineFrom(s);
      Front(ParseLine(s).rest);
      assert LineText(l) + [] == LineText(l);
    }
    if l :| WfLine(l) && LineText(l) == Lexemes(s) && LineMeans(l) == c { Accepted(s, l); }
  }
}
