/** The parser of user/sh.c as it runs: a cursor moves over the line, and afterwards the words are
    ended in place by zero bytes. */
module ShellParser {
  import opened Options
  import opened ShellGrammar

  /** None stands for the shell giving up with a message. */
  class Parser {
    const s: string
    var ps: nat

    constructor (s: string)
      requires '\0' !in s
      ensures Valid() && this.s == s && ps == 0
    {
      this.s := s;
      ps := 0;
    }

    /** The line is the text of a C string in front of its terminator. */
    ghost predicate Valid()
      reads this
    {
      ps <= |s| && '\0' !in s
    }

    function Left(): string
      requires ps <= |s|
      reads this
    {
      s[ps..]
    }

    method SkipWhite()
      requires ps <= |s|
      modifies this
      ensures old(ps) <= ps <= |s| && Left() == SkipWs(old(Left()))
    {
      while ps < |s| && White(s[ps])
        invariant old(ps) <= ps <= |s| && SkipWs(Left()) == SkipWs(old(Left()))
      {
        assert Left()[1..] == s[ps + 1..];
        ps := ps + 1;
      }
    }

    /** gettoken: the kind of token, and where it starts and ends. */
    method GetToken() returns (kind: char, q: nat, eq: nat)
      requires ps <= |s|
      modifies this
      ensures old(ps) <= q <= eq <= ps <= |s|
      ensures var t := GetTok(old(Left())); kind == t.kind && TokenAt(s, q, eq) == t.word && Left() == t.rest
    {
      hide SkipWs, TokLen, TokKind, Suffix;
      SkipWhite();
      q := ps;
      kind := Scan();
      eq := ps;
      assert s[q..][..eq - q] == s[q..eq] && s[q..][eq - q..] == s[eq..];
      SkipWhite();
    }

    /** The switch of gettoken: move behind the token at the cursor. */
    method Scan() returns (kind: char)
      requires ps <= |s| && (ps < |s| ==> !White(s[ps]))
      modifies this
      ensures old(ps) <= ps <= |s| && ps == old(ps) + TokLen(old(Left())) && kind == TokKind(old(Left()))
    {
      if ps == |s| {
        kind := '\0';
      } else if s[ps] == '|' || s[ps] == '(' || s[ps] == ')' || s[ps] == ';' || s[ps] == '&' || s[ps] == '<' {
        kind := s[ps];
        ps := ps + 1;
      } else if s[ps] == '>' {
        kind := '>';
        ps := ps + 1;
        if ps < |s| && s[ps] == '>' {
          kind := '+';
          ps := ps + 1;
        }
      } else {
        kind := 'a';
        SkipWord();
      }
    }

    method SkipWord()
      requires ps <= |s|
      modifies this
      ensures old(ps) <= ps <= |s| && ps == old(ps) + WordLen(old(Left()))
    {
      while ps < |s| && !White(s[ps]) && !Symbol(s[ps])
        invariant old(ps) <= ps <= |s| && ps + WordLen(Left()) == old(ps) + WordLen(old(Left()))
      {
        assert Left()[1..] == s[ps + 1..];
        ps := ps + 1;
      }
    }

    method Peek(toks: set<char>) returns (sees: bool)
      requires ps <= |s|
      modifies this
      ensures old(ps) <= ps <= |s| && Left() == SkipWs(old(Left())) && sees == Sees(old(Left()), toks)
    {
      SkipWhite();
      return ps < |s| && s[ps] in toks;
    }

    /** The redirections behind a command. */
    method Redirections() returns (r: Option<seq<Redirect>>)
      requires ps <= |s|
      modifies this
      ensures old(ps) <= ps <= |s|
      ensures match ParseRedirs(old(Left())) case Bad => r.None? case Good(l, rest) => r == Some(l) && Left() == rest
    {
      hide SkipWs, GetTok, Suffix;
      var list: seq<Redirect> := [];
      ghost var all := ParseRedirs(Left());
      while true
        invariant old(ps) <= ps <= |s| && all == Behind(list, ParseRedirs(Left()))
        decreases |s| - ps
      {
        ghost var left := Left();
        var sees := Peek({'<', '>'});
        SkipSame(left);
        if !sees {
          assert list + [] == list;
          return Some(list);
        }
        var tok, q0, e0 := GetToken();
        var kind, q, eq := GetToken();
        if kind != 'a' { return None; }
        var one := Redirect(TokenAt(s, q, eq), tok != '<');
        assert all == Behind(list + [one], ParseRedirs(Left())) by { BehindOne(list, one, ParseRedirs(Left())); }
        list := list + [one];
      }
    }

    /** What the parsing methods promise: they do what the grammar says with the text left. */
    ghost predicate Follows(was: nat, p: Parsed, r: Option<Cmd<Token>>)
      reads this
    {
      && was <= ps <= |s|
      && match p case Fail => r.None? case Ok(c, rest) => r == Some(c) && Left() == rest
    }

    method ParseLine() returns (r: Option<Cmd<Token>>)
      requires Valid()
      modifies this
      ensures Follows(old(ps), ShellGrammar.ParseLine(old(Left())), r)
      decreases |s| - ps, 3
    {
      hide SkipWs, GetTok, Suffix, ShellGrammar.ParsePipe;
      r := ParsePipe();
      if r.None? { return; }
      var cmd := r.value;
      ghost var all := ParseBacks(cmd, Left());
      ghost var first := ps;
      while true
        invariant first <= ps <= |s| && all == ParseBacks(cmd, Left())
        decreases |s| - ps
      {
        SkipSame(Left());
        var sees := Peek({'&'});
        if !sees { break; }
        var tok, q, eq := GetToken();
        cmd := Back(cmd);
      }
      SkipSame(Left());
      var sees := Peek({';'});
      if sees {
        var tok, q, eq := GetToken();
        r := ParseLine();
        if r.Some? { r := Some(List(cmd, r.value)); }
      } else {
        r := Some(cmd);
      }
    }

    /** parsecmd up to nulterminate. */
    method ParseCmd() returns (r: Option<Cmd<Token>>)
      requires Valid() && ps == 0
      modifies this
      ensures match ShellGrammar.ParseCmd(s) case Fail => r.None? case Ok(c, _) => r == Some(c)
    {
      assert Left() == s;
      r := ParseLine();
      if r.None? { return; }
      var sees := Peek({});
      if ps != |s| { return None; }
    }

    method ParsePipe() returns (r: Option<Cmd<Token>>)
      requires Valid()
      modifies this
      ensures Follows(old(ps), ShellGrammar.ParsePipe(old(Left())), r)
      decreases |s| - ps, 2
    {
      hide SkipWs, GetTok, Suffix, ShellGrammar.ParseExec;
      r := ParseExec();
      if r.None? { return; }
      var cmd := r.value;
      SkipSame(Left());
      var sees := Peek({'|'});
      if sees {
        var tok, q, eq := GetToken();
        r := ParsePipe();
        if r.Some? { r := Some(Pipe(cmd, r.value)); }
      }
    }

    method ParseExec() returns (r: Option<Cmd<Token>>)
      requires Valid()
      modifies this
      ensures Follows(old(ps), ShellGrammar.ParseExec(old(Left())), r)
      decreases |s| - ps, 1
    {
      hide SkipWs, GetTok, Suffix, ParseRedirs, ParseArgs;
      ghost var left := Left();
      SkipSame(left);
      RedirsSkip(left);
      var sees := Peek({'('});
      if sees {
        BlockSkip(left);
        r := ParseBlock();
        return;
      }
      var list := Redirections();
      if list.None? { return None; }
      r := Arguments(list.value);
    }

    /** The argument loop of parseexec. */
    method Arguments(redirects: seq<Redirect>) returns (r: Option<Cmd<Token>>)
      requires Valid()
      modifies this
      ensures Follows(old(ps), ParseArgs([], redirects, old(Left())), r)
    {
      hide SkipWs, GetTok, Suffix, ParseRedirs;
      var argv: seq<Token> := [];
      var list := redirects;
      ghost var all := ParseArgs([], list, Left());
      while true
        invariant old(ps) <= ps <= |s| && all == ParseArgs(argv, list, Left())
        decreases |s| - ps
      {
        SkipSame(Left());
        ghost var left := Left();
        var sees := Peek({'|', ')', '&', ';'});
        if sees { return Some(Wrap(Exec(argv), list)); }
        EndToken(left);
        var tok, q, eq := GetToken();
        if tok == '\0' { return Some(Wrap(Exec(argv), list)); }
        if tok != 'a' { return None; }
        argv := argv + [TokenAt(s, q, eq)];
        if |argv| >= MAXARGS { return None; }
        var more := Redirections();
        if more.None? { return None; }
        list := list + more.value;
      }
    }

    method ParseBlock() returns (r: Option<Cmd<Token>>)
      requires Valid() && Sees(Left(), {'('})
      modifies this
      ensures Follows(old(ps), ShellGrammar.ParseBlock(old(Left())), r)
      decreases |s| - ps, 0
    {
      hide SkipWs, GetTok, Suffix, ParseRedirs, ShellGrammar.ParseLine;
      var tok, q, eq := GetToken();
      r := ParseLine();
      if r.None? { return; }
      var cmd := r.value;
      SkipSame(Left());
      var sees := Peek({')'});
      if !sees { return None; }
      tok, q, eq := GetToken();
      var list := Redirections();
      if list.None? { return None; }
      return Some(Wrap(cmd, list.value));
    }
  }

  lemma BehindOne(list: seq<Redirect>, one: Redirect, p: Redirects)
    ensures Behind(list + [one], p) == match p case Bad => Bad case Good(l, rest) => Good(list + ([one] + l), rest)
  {
    if p.Good? { assert list + [one] + p.list == list + ([one] + p.list); }
  }

  lemma {:induction false} RedirsSkip(r: string)
    ensures ParseRedirs(SkipWs(r)) == ParseRedirs(r)
  {
    hide GetTok, Suffix, SkipWs;
    SkipSame(r);
  }

  lemma {:induction false} BlockSkip(r: string)
    requires Sees(r, {'('})
    ensures Sees(SkipWs(r), {'('}) && ShellGrammar.ParseBlock(SkipWs(r)) == ShellGrammar.ParseBlock(r)
  {
    hide GetTok, Suffix, SkipWs;
    SkipSame(r);
  }

  /** gettoken returns 0 exactly at the end of the line. */
  lemma {:induction false} EndToken(r: string)
    requires '\0' !in r
    ensures GetTok(r).kind == '\0' <==> SkipWs(r) == []
  {
    hide Suffix;
  }

  /** The word between two pointers into the line. */
  function TokenAt(s: string, q: nat, eq: nat): Token
    requires q <= eq <= |s|
  {
    Token(s[q..eq], |s| - eq)
  }

  function Behind(list: seq<Redirect>, p: Redirects): Redirects
  {
    match p case Bad => Bad case Good(l, rest) => Good(list + l, rest)
  }

  /** Reading from behind white space is reading from in front of it. */
  lemma {:induction false} SkipSame(r: string)
    ensures SkipWs(SkipWs(r)) == SkipWs(r) && GetTok(SkipWs(r)) == GetTok(r)
  {
    SkipTwice(r);
    hide SkipWs, Suffix;
  }
}
