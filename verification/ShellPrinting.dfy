/** Parsing undoes printing: how the lexer cuts text, and lines that the shell reads as the command
    they were printed from. */
module ShellPrinting {
  import opened Options
  import opened ShellGrammar
  import opened ShellSyntax

  predicate IsWord(w: string) { w != [] && forall i :: 0 <= i < |w| ==> WordChar(w[i]) }

  predicate AllWords(ws: seq<string>) { forall i :: 0 <= i < |ws| ==> IsWord(ws[i]) }

  // ---- tokens

  lemma {:induction false} SkipSymbol(c: char, r: string)
    requires Symbol(c)
    ensures SkipWs([c] + r) == [c] + r
  {
    hide Suffix;
  }

  lemma {:induction false} SymbolRead(c: char, r: string)
    requires Symbol(c) && (c == '>' ==> r == [] || r[0] != '>')
    ensures var t := GetTok([c] + r);
      SkipWs([c] + r) == [c] + r && t.kind == c && t.word.text == [c] && t.rest == SkipWs(r)
  {
    hide SkipWs, Suffix, TokLen, TokKind;
    SkipSymbol(c, r);
    SymbolToken(c, r);
    assert ([c] + r)[1..] == r && ([c] + r)[..1] == [c];
  }

  lemma SymbolToken(c: char, r: string)
    requires Symbol(c) && (c == '>' ==> r == [] || r[0] != '>')
    ensures TokLen([c] + r) == 1 && TokKind([c] + r) == c
  {
    hide WordLen;
    var w := [c] + r;
    assert w[0] == c && (r != [] ==> w[1] == r[0]);
  }

  lemma {:induction false} WordEnds(w: string, r: string)
    requires (forall i :: 0 <= i < |w| ==> WordChar(w[i])) && (r == [] || !WordChar(r[0]))
    ensures WordLen(w + r) == |w|
    decreases |w|
  {
    if w == [] {
      assert w + r == r;
    } else {
      assert (w + r)[1..] == w[1..] + r;
      WordEnds(w[1..], r);
    }
  }

  lemma {:induction false} Word(w: string, r: string)
    requires IsWord(w) && (r == [] || !WordChar(r[0]))
    ensures var t := GetTok(w + r); SkipWs(w + r) == w + r && t.kind == 'a' && t.word.text == w && t.rest == SkipWs(r)
  {
    assert (w + r)[0] == w[0];
    WordEnds(w, r);
    assert (w + r)[..|w|] == w && (w + r)[|w|..] == r;
  }

  lemma {:induction false} AppendRead(r: string)
    ensures var t := GetTok(">>" + r);
      SkipWs(">>" + r) == ">>" + r && t.kind == '+' && t.word.text == ">>" && t.rest == SkipWs(r)
  {
    hide Suffix, WordLen;
    var w := ">>" + r;
    SkipSymbol('>', ">" + r);
    assert w == [w[0]] + (">" + r) && w[2..] == r && w[..2] == ">>";
  }

  // ---- lexemes

  lemma {:induction false} LexSymbol(c: char, r: string)
    requires Symbol(c) && (c == '>' ==> r == [] || r[0] != '>')
    ensures Lexemes([c] + r) == [Sym(c)] + Lexemes(r)
  {
    hide GetTok, SkipWs, Suffix;
    SymbolRead(c, r);
    SkipLexemes(r);
  }

  lemma {:induction false} LexAppend(r: string)
    ensures Lexemes(">>" + r) == [Sym('+')] + Lexemes(r)
  {
    hide GetTok, SkipWs, Suffix;
    AppendRead(r);
    SkipLexemes(r);
  }

  lemma {:induction false} LexWord(w: string, r: string)
    requires IsWord(w) && (r == [] || !WordChar(r[0]))
    ensures Lexemes(w + r) == [Lexeme('a', w)] + Lexemes(r)
  {
    hide GetTok, SkipWs, Suffix;
    Word(w, r);
    SkipLexemes(r);
  }

  lemma {:induction false} LexWhite(gap: string, r: string)
    requires forall i :: 0 <= i < |gap| ==> White(gap[i])
    ensures Lexemes(gap + r) == Lexemes(r)
  {
    SkipGap(gap, r);
    SkipLexemes(gap + r);
    SkipLexemes(r);
  }

  lemma {:induction false} SkipGap(gap: string, r: string)
    requires forall i :: 0 <= i < |gap| ==> White(gap[i])
    ensures SkipWs(gap + r) == SkipWs(r)
    decreases |gap|
  {
    hide Suffix, White;
    if gap == [] {
      assert gap + r == r;
    } else {
      assert (gap + r)[1..] == gap[1..] + r && (gap + r)[0] == gap[0];
      SkipGap(gap[1..], r);
    }
  }

  // ---- lines of the grammar, with any white space

  /** What gettoken can return: a word, a symbol or `>>`. */
  predicate Lexical(x: Lexeme)
  {
    (x.kind == 'a' && IsWord(x.text)) || (Symbol(x.kind) && x == Sym(x.kind)) || x == Sym('+')
  }

  predicate AllLexical(ls: seq<Lexeme>) { forall i :: 0 <= i < |ls| ==> Lexical(ls[i]) }

  predicate Gap(s: string) { s != [] && forall i :: 0 <= i < |s| ==> White(s[i]) }
  predicate AllGaps(gaps: seq<string>) { forall i :: 0 <= i < |gaps| ==> Gap(gaps[i]) }

  /** The text of lexemes, each followed by white space. */
  function Spell(ls: seq<Lexeme>, gaps: seq<string>): string
    requires |gaps| == |ls|
  {
    if ls == [] then [] else ls[0].text + (gaps[0] + Spell(ls[1..], gaps[1..]))
  }

  lemma {:induction false} SpellRead(ls: seq<Lexeme>, gaps: seq<string>)
    requires |gaps| == |ls| && AllLexical(ls) && AllGaps(gaps)
    ensures Lexemes(Spell(ls, gaps)) == ls
    decreases |ls|
  {
    hide Lexemes, IsWord, GetTok, SkipWs, Suffix;
    if ls == [] {
      NothingLeft();
    } else {
      SpellRead(ls[1..], gaps[1..]);
      var x, r := ls[0], Spell(ls[1..], gaps[1..]);
      assert Lexical(x) && Gap(gaps[0]);
      OneRead(x, gaps[0], r);
      assert ls == [x] + ls[1..];
    }
  }

  lemma NothingLeft()
    ensures Lexemes("") == []
  {
  }

  lemma {:induction false} OneRead(x: Lexeme, gap: string, r: string)
    requires Lexical(x) && Gap(gap)
    ensures Lexemes(x.text + (gap + r)) == [x] + Lexemes(r)
  {
    hide Lexemes, IsWord, GetTok, SkipWs, Suffix;
    LexWhite(gap, r);
    assert (gap + r)[0] == gap[0];
    if x.kind == 'a' && IsWord(x.text) {
      LexWord(x.text, gap + r);
    } else if x == Sym('+') {
      LexAppend(gap + r);
    } else {
      LexSymbol(x.kind, gap + r);
    }
  }

  /** Every line of the grammar, written with any white space between its lexemes, is read as what
      it means. */
  lemma {:induction false} PrintedLine(l: Line, gaps: seq<string>)
    requires WfLine(l) && AllLexical(LineText(l)) && |gaps| == |LineText(l)| && AllGaps(gaps)
    ensures ParsesTo(Spell(LineText(l), gaps), LineMeans(l))
  {
    hide *;
    SpellRead(LineText(l), gaps);
    Accepted(Spell(LineText(l), gaps), l);
  }

  /** So the grammar is not ambiguous: a text has one meaning. */
  lemma {:induction false} OneMeaning(l: Line, m: Line)
    requires WfLine(l) && WfLine(m) && LineText(l) == LineText(m) && AllLexical(LineText(l))
    ensures LineMeans(l) == LineMeans(m)
  {
    var gaps := seq(|LineText(l)|, _ => " ");
    hide WfLine, LineText, LineMeans, AllLexical;
    PrintedLine(l, gaps);
    PrintedLine(m, gaps);
  }

  // ---- short lines

  function OneLine(a: Atom): Line { Line(Single(a), 0, None) }

  function TwoPiped(a: Atom, b: Atom): Line { Line(Piped(a, Single(b)), 0, None) }
  function TwoListed(a: Atom, b: Atom): Line { Line(Single(a), 0, Some(OneLine(b))) }
  function InBack(a: Atom): Line { Line(Single(a), 1, None) }

  lemma {:induction false} OneIs(a: Atom)
    requires WfAtom(a)
    ensures WfLine(OneLine(a)) && LineText(OneLine(a)) == AtomText(a) && LineMeans(OneLine(a)) == AtomMeans(a)
    ensures WfLine(InBack(a)) && LineText(InBack(a)) == AtomText(a) + [Sym('&')]
    ensures LineMeans(InBack(a)) == Back(AtomMeans(a))
  {
    hide WfAtom, AtomText, AtomMeans;
    var p := Single(a);
    assert WfPipeline(p) && PipelineText(p) == AtomText(a) && PipelineMeans(p) == AtomMeans(a);
    assert Backs(AtomMeans(a), 0) == AtomMeans(a) && Backs(AtomMeans(a), 1) == Back(AtomMeans(a));
  }

  lemma {:induction false} TwoAre(a: Atom, b: Atom)
    requires WfAtom(a) && WfAtom(b)
    ensures WfLine(TwoPiped(a, b)) && LineText(TwoPiped(a, b)) == AtomText(a) + [Sym('|')] + AtomText(b)
    ensures WfLine(TwoListed(a, b)) && LineText(TwoListed(a, b)) == AtomText(a) + [Sym(';')] + AtomText(b)
    ensures LineMeans(TwoPiped(a, b)) == Pipe(AtomMeans(a), AtomMeans(b))
    ensures LineMeans(TwoListed(a, b)) == List(AtomMeans(a), AtomMeans(b))
  {
    hide WfAtom, AtomText, AtomMeans;
    OneIs(b);
    var p, q := Single(a), Single(b);
    assert WfPipeline(p) && PipelineText(p) == AtomText(a) && PipelineMeans(p) == AtomMeans(a);
    assert WfPipeline(q) && PipelineText(q) == AtomText(b) && PipelineMeans(q) == AtomMeans(b);
    assert WfPipeline(Piped(a, q)) && PipelineText(Piped(a, q)) == AtomText(a) + [Sym('|')] + AtomText(b);
    assert PipelineMeans(Piped(a, q)) == Pipe(AtomMeans(a), AtomMeans(b));
    hide WfPipeline, PipelineText, PipelineMeans;
  }

  /** The words and redirections of a simple command, in any order, are the exec node of the words
      wrapped in the redirections in that order. */
  lemma {:induction false} SimpleLine(s: string, items: seq<Item>)
    requires AllItems(items) && |Args(items)| < MAXARGS && Lexemes(s) == ItemsText(items)
    ensures AllFiles(Files(items)) && ParsesTo(s, Redirected(Exec(Args(items)), Files(items)))
  {
    hide Lexemes, ParsesTo, Args, Files, ItemsText, Redirected, OneLine;
    FilesAre(items);
    OneIs(Simple(items));
    Accepted(s, OneLine(Simple(items)));
  }

  /** `a | b`, `a ; b` and `a &` of groups or simple commands, without parentheses. */
  lemma {:induction false} ShortLines(s: string, a: Atom, b: Atom)
    requires WfAtom(a) && WfAtom(b)
    ensures Lexemes(s) == AtomText(a) + [Sym('|')] + AtomText(b) ==> ParsesTo(s, Pipe(AtomMeans(a), AtomMeans(b)))
    ensures Lexemes(s) == AtomText(a) + [Sym(';')] + AtomText(b) ==> ParsesTo(s, List(AtomMeans(a), AtomMeans(b)))
    ensures Lexemes(s) == AtomText(a) + [Sym('&')] ==> ParsesTo(s, Back(AtomMeans(a)))
  {
    hide *;
    OneIs(a);
    TwoAre(a, b);
    if Lexemes(s) == LineText(TwoPiped(a, b)) { Accepted(s, TwoPiped(a, b)); }
    if Lexemes(s) == LineText(TwoListed(a, b)) { Accepted(s, TwoListed(a, b)); }
    if Lexemes(s) == LineText(InBack(a)) { Accepted(s, InBack(a)); }
  }

  // ---- commands in parentheses

  /** Commands with at most nine words each, made of word characters. */
  predicate Printable(c: Cmd<string>)
  {
    match c
    case Exec(argv) => |argv| < MAXARGS && AllWords(argv)
    case Redir(d, f, _) => Printable(d) && IsWord(f)
    case Pipe(l, r) => Printable(l) && Printable(r)
    case List(l, r) => Printable(l) && Printable(r)
    case Back(d) => Printable(d)
  }

  function Join(ws: seq<string>): string
  {
    if ws == [] then [] else if |ws| == 1 then ws[0] else ws[0] + " " + Join(ws[1..])
  }

  /** The text of a command followed by `post`, with every part in parentheses. */
  function On(c: Cmd<string>, post: string): string
  {
    match c
    case Exec(argv) => Join(argv) + post
    case Redir(d, f, out) => "(" + On(d, ")" + ((if out then ">" else "<") + (f + post)))
    case Pipe(l, r) => "(" + On(l, ")" + ("|" + ("(" + On(r, ")" + post))))
    case List(l, r) => "(" + On(l, ")" + (";" + ("(" + On(r, ")" + post))))
    case Back(d) => "(" + On(d, ")" + ("&" + post))
  }

  function Print(c: Cmd<string>): string { On(c, "") }

  /** The line of the grammar that `On` writes. */
  function Tree(c: Cmd<string>): Line
  {
    match c
    case Exec(argv) => OneLine(Simple(Words(argv)))
    case Redir(d, f, out) => OneLine(Group(Tree(d), [File(f, if out then '>' else '<')]))
    case Pipe(l, r) => TwoPiped(Group(Tree(l), []), Group(Tree(r), []))
    case List(l, r) => TwoListed(Group(Tree(l), []), Group(Tree(r), []))
    case Back(d) => InBack(Group(Tree(d), []))
  }

  function Words(argv: seq<string>): seq<Item> { if argv == [] then [] else [Arg(argv[0])] + Words(argv[1..]) }

  lemma {:induction false} WordsAre(argv: seq<string>)
    ensures AllItems(Words(argv)) && Args(Words(argv)) == argv && Files(Words(argv)) == []
  {
    if argv != [] {
      WordsAre(argv[1..]);
      assert Words(argv)[1..] == Words(argv[1..]);
    }
  }

  lemma {:induction false} GroupIs(l: Line, files: seq<Item>)
    requires WfLine(l) && AllFiles(files)
    ensures WfAtom(Group(l, files)) && AtomMeans(Group(l, files)) == Redirected(LineMeans(l), files)
  {
  }

  /** The tree means the command. */
  lemma {:induction false} TreeMeans(c: Cmd<string>)
    requires Printable(c)
    ensures WfLine(Tree(c)) && LineMeans(Tree(c)) == c
  {
    hide WfLine, LineMeans, WfAtom, AtomMeans, OneLine, TwoPiped, TwoListed, InBack, IsWord, Args, Files;
    match c
    case Exec(argv) =>
      WordsAre(argv);
      SimpleIs(Words(argv));
      OneIs(Simple(Words(argv)));
    case Redir(d, f, out) =>
      var files := [File(f, if out then '>' else '<')];
      TreeMeans(d);
      GroupIs(Tree(d), files);
      OneIs(Group(Tree(d), files));
      assert Redirected(d, files) == Redir(Redirected(d, files[..0]), f, out);
    case Pipe(l, r) =>
      TreeMeans(l);
      TreeMeans(r);
      GroupIs(Tree(l), []);
      GroupIs(Tree(r), []);
      TwoAre(Group(Tree(l), []), Group(Tree(r), []));
    case List(l, r) =>
      TreeMeans(l);
      TreeMeans(r);
      GroupIs(Tree(l), []);
      GroupIs(Tree(r), []);
      TwoAre(Group(Tree(l), []), Group(Tree(r), []));
    case Back(d) =>
      TreeMeans(d);
      GroupIs(Tree(d), []);
      OneIs(Group(Tree(d), []));
  }

  lemma {:induction false} SimpleIs(items: seq<Item>)
    requires AllItems(items) && |Args(items)| < MAXARGS && Files(items) == []
    ensures WfAtom(Simple(items)) && AtomMeans(Simple(items)) == Exec(Args(items))
  {
  }

  /** What may follow a command: nothing, or something that is not part of a word. */
  predicate Stop(post: string) { post == [] || !WordChar(post[0]) }

  lemma {:induction false} JoinText(ws: seq<string>, post: string)
    requires AllWords(ws) && Stop(post)
    ensures Lexemes(Join(ws) + post) == ItemsText(Words(ws)) + Lexemes(post)
    decreases |ws|
  {
    hide Lexemes, IsWord;
    if ws == [] {
      assert Join(ws) + post == post;
    } else if |ws| == 1 {
      LexWord(ws[0], post);
      assert Words(ws) == [Arg(ws[0])];
    } else {
      JoinText(ws[1..], post);
      var r := Join(ws[1..]) + post;
      assert Join(ws) + post == ws[0] + (" " + r);
      LexWord(ws[0], " " + r);
      LexWhite(" ", r);
      assert Words(ws)[1..] == Words(ws[1..]);
    }
  }

  lemma {:induction false} GroupText(l: Line, files: seq<Item>, inner: string, behind: string, k: seq<Lexeme>)
    requires Lexemes(inner) == LineText(l) + Lexemes(")" + behind) && Lexemes(behind) == ItemsText(files) + k
    ensures Lexemes("(" + inner) == AtomText(Group(l, files)) + k
  {
    hide Lexemes, LineText;
    LexSymbol('(', inner);
    LexSymbol(')', behind);
  }

  lemma {:induction false} FileText(f: string, out: bool, post: string)
    requires IsWord(f) && Stop(post)
    ensures Lexemes((if out then ">" else "<") + (f + post))
      == ItemsText([File(f, if out then '>' else '<')]) + Lexemes(post)
  {
    hide Lexemes;
    LexWord(f, post);
    assert (f + post)[0] == f[0];
    LexSymbol(if out then '>' else '<', f + post);
  }

  /** The text is the text of the tree. */
  lemma {:induction false} OnText(c: Cmd<string>, post: string)
    requires Printable(c) && Stop(post)
    ensures Lexemes(On(c, post)) == LineText(Tree(c)) + Lexemes(post)
    decreases c
  {
    hide Lexemes, IsWord, LineText, OneLine, TwoPiped, TwoListed, InBack, WfLine, WfAtom, LineMeans,
      AtomMeans, ItemsText;
    match c
    case Exec(argv) =>
      JoinText(argv, post);
      WordsAre(argv);
      SimpleIs(Words(argv));
      OneIs(Simple(Words(argv)));
    case Redir(d, f, out) =>
      var files, behind := [File(f, if out then '>' else '<')], (if out then ">" else "<") + (f + post);
      hide AtomText;
      OnText(d, ")" + behind);
      FileText(f, out, post);
      GroupText(Tree(d), files, On(d, ")" + behind), behind, Lexemes(post));
      TreeMeans(d);
      GroupIs(Tree(d), files);
      OneIs(Group(Tree(d), files));
    case Pipe(l, r) =>
      OnText(r, ")" + post);
      OnText(l, ")" + ("|" + ("(" + On(r, ")" + post))));
      PairText(l, r, '|', post);
    case List(l, r) =>
      OnText(r, ")" + post);
      OnText(l, ")" + (";" + ("(" + On(r, ")" + post))));
      PairText(l, r, ';', post);
    case Back(d) =>
      hide AtomText;
      OnText(d, ")" + ("&" + post));
      LexSymbol('&', post);
      Ungrouped(d, "&" + post);
      TreeMeans(d);
      GroupIs(Tree(d), []);
      OneIs(Group(Tree(d), []));
  }

  lemma {:induction false} Ungrouped(d: Cmd<string>, behind: string)
    requires Lexemes(On(d, ")" + behind)) == LineText(Tree(d)) + Lexemes(")" + behind)
    ensures Lexemes("(" + On(d, ")" + behind)) == AtomText(Group(Tree(d), [])) + Lexemes(behind)
  {
    hide Lexemes, LineText, AtomText;
    assert ItemsText([]) + Lexemes(behind) == Lexemes(behind);
    GroupText(Tree(d), [], On(d, ")" + behind), behind, Lexemes(behind));
  }

  lemma {:induction false} PairText(l: Cmd<string>, r: Cmd<string>, c: char, post: string)
    requires Printable(l) && Printable(r) && c in {'|', ';'}
    requires Lexemes(On(r, ")" + post)) == LineText(Tree(r)) + Lexemes(")" + post)
    requires var rest := ")" + ([c] + ("(" + On(r, ")" + post)));
      Lexemes(On(l, rest)) == LineText(Tree(l)) + Lexemes(rest)
    ensures var a, b := Group(Tree(l), []), Group(Tree(r), []);
      Lexemes("(" + On(l, ")" + ([c] + ("(" + On(r, ")" + post)))))
      == LineText(if c == '|' then TwoPiped(a, b) else TwoListed(a, b)) + Lexemes(post)
  {
    hide Lexemes, IsWord, LineText, OneLine, TwoPiped, TwoListed, WfLine, WfAtom, LineMeans, AtomMeans, AtomText;
    var tail := "(" + On(r, ")" + post);
    Ungrouped(r, post);
    Ungrouped(l, [c] + tail);
    LexSymbol(c, tail);
    TreeMeans(l);
    TreeMeans(r);
    GroupIs(Tree(l), []);
    GroupIs(Tree(r), []);
    TwoAre(Group(Tree(l), []), Group(Tree(r), []));
  }

  /** Parsing undoes printing. */
  lemma {:induction false} RoundTrip(c: Cmd<string>)
    requires Printable(c)
    ensures ParsesTo(Print(c), c)
  {
    hide Lexemes, LineText, LineMeans, WfLine, ParsesTo, Tree, On;
    OnText(c, "");
    NothingLeft();
    TreeMeans(c);
    assert LineText(Tree(c)) + [] == LineText(Tree(c));
    Accepted(Print(c), Tree(c));
  }

  // ---- appending

  /** `>>` is read exactly as `>`, unless a third `>` follows and `>` with it is accepted: three in a
      row never are. */
  lemma {:induction false} AppendIsOverwrite(r: string)
    ensures ParseRedirs(">>" + r) == ParseRedirs(">" + r) <==> r == [] || r[0] != '>' || ParseRedirs(">" + r).Bad?
    ensures r != [] && r[0] == '>' ==> ParseRedirs(">>" + r).Bad?
  {
    hide Suffix, SkipWs, GetTok;
    AppendRead(r);
    if r == [] || r[0] != '>' {
      SymbolRead('>', r);
    } else {
      AngleKind(r);
    }
  }

  lemma {:induction false} AngleKind(r: string)
    requires r != [] && r[0] == '>'
    ensures SkipWs(r) == r && GetTok(r).kind != 'a'
  {
    hide Suffix, WordLen;
    SkipSymbol('>', r[1..]);
    assert ['>'] + r[1..] == r;
  }

  /** A whole line that appends the output of any command to any file means what the same line with
      `>` means. */
  lemma {:induction false} AppendLine(c: Cmd<string>, f: string)
    requires Printable(c) && IsWord(f)
    ensures ParsesTo("(" + On(c, ")" + (">>" + f)), Redir(c, f, true))
    ensures ParsesTo("(" + On(c, ")" + (">" + f)), Redir(c, f, true))
  {
    hide Lexemes, LineText, LineMeans, WfLine, WfAtom, AtomMeans, AtomText, ParsesTo, Tree, On, IsWord, OneLine;
    var files := [File(f, '+')];
    assert f + "" == f;
    FileText(f, true, "");
    LexWord(f, "");
    LexAppend(f);
    NothingLeft();
    assert ItemsText(files) == [Sym('+'), Lexeme('a', f)];
    GroupLine(c, files, ">>" + f);
    GroupLine(c, [File(f, '>')], ">" + f);
    assert files[..0] == [] && [File(f, '>')][..0] == [];
  }

  lemma {:induction false} GroupLine(c: Cmd<string>, files: seq<Item>, behind: string)
    requires Printable(c) && AllFiles(files) && Lexemes(behind) == ItemsText(files)
    ensures ParsesTo("(" + On(c, ")" + behind), Redirected(c, files))
  {
    hide Lexemes, LineText, LineMeans, WfLine, WfAtom, AtomMeans, AtomText, ParsesTo, Tree, On, OneLine, Redirected;
    OnText(c, ")" + behind);
    assert ItemsText(files) + [] == ItemsText(files);
    GroupText(Tree(c), files, On(c, ")" + behind), behind, []);
    TreeMeans(c);
    GroupIs(Tree(c), files);
    OneIs(Group(Tree(c), files));
    assert AtomText(Group(Tree(c), files)) + [] == AtomText(Group(Tree(c), files));
    Accepted("(" + On(c, ")" + behind), OneLine(Group(Tree(c), files)));
  }
}
