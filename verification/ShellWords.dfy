/** nulterminate of user/sh.c: every word of a parsed command becomes a C string of its own inside
    the line, although the words share one buffer. */
module ShellWords {
  import opened ShellGrammar

  /** All words of a command. */
  function Tokens(c: Cmd<Token>): set<Token>
  {
    match c
    case Exec(argv) => set i | 0 <= i < |argv| :: argv[i]
    case Redir(d, f, _) => Tokens(d) + {f}
    case Pipe(l, r) => Tokens(l) + Tokens(r)
    case List(l, r) => Tokens(l) + Tokens(r)
    case Back(d) => Tokens(d)
  }

  /** The token lies in `r` where it says, consists of word characters, and is followed by the end
      of the text or by a character that is none. */
  ghost predicate InText(r: string, t: Token)
  {
    && t.text != [] && (forall i :: 0 <= i < |t.text| ==> WordChar(t.text[i]))
    && |t.text| + t.to <= |r| && r[|r| - t.to - |t.text|..|r| - t.to] == t.text
    && (t.to > 0 ==> !WordChar(r[|r| - t.to]))
  }

  ghost predicate AllInText(r: string, c: Cmd<Token>) { forall t :: t in Tokens(c) ==> InText(r, t) }
  ghost predicate ListInText(r: string, l: seq<Redirect>) { forall i :: 0 <= i < |l| ==> InText(r, l[i].file) }
  ghost predicate ArgsInText(r: string, ts: seq<Token>) { forall i :: 0 <= i < |ts| ==> InText(r, ts[i]) }

  lemma InLonger(a: string, b: string, t: Token)
    requires Suffix(a, b) && InText(a, t)
    ensures InText(b, t)
  {
    var d := |b| - |a|;
    assert b[d..][|a| - t.to - |t.text|..|a| - t.to] == b[|b| - t.to - |t.text|..|b| - t.to];
    if t.to > 0 { assert b[d..][|a| - t.to] == b[|b| - t.to]; }
  }

  lemma {:induction false} AllInLonger(a: string, b: string, c: Cmd<Token>)
    requires Suffix(a, b) && AllInText(a, c)
    ensures AllInText(b, c)
  {
    forall t | t in Tokens(c) ensures InText(b, t) { InLonger(a, b, t); }
  }

  lemma ListInLonger(a: string, b: string, l: seq<Redirect>)
    requires Suffix(a, b) && ListInText(a, l)
    ensures ListInText(b, l)
  {
    forall i | 0 <= i < |l| ensures InText(b, l[i].file) { InLonger(a, b, l[i].file); }
  }

  lemma {:induction false} FrontInText(w: string)
    requires w != [] && WordChar(w[0])
    ensures TokLen(w) <= |w| && InText(w, Token(w[..TokLen(w)], |w| - TokLen(w)))
  {
    var k := WordLen(w);
    assert forall i :: 0 <= i < k ==> w[..k][i] == w[i];
    hide WordLen;
  }

  /** gettoken cuts words at their ends. */
  lemma {:induction false} TokenInText(r: string)
    requires GetTok(r).kind == 'a'
    ensures InText(r, GetTok(r).word)
  {
    hide SkipWs, Suffix, InText, TokLen;
    FrontInText(SkipWs(r));
    InLonger(SkipWs(r), r, GetTok(r).word);
  }

  lemma {:induction false} WrapTokens(c: Cmd<Token>, l: seq<Redirect>, r: string)
    requires AllInText(r, c) && ListInText(r, l)
    ensures AllInText(r, Wrap(c, l))
    decreases |l|
  {
    hide InText;
    if l != [] {
      assert AllInText(r, Redir(c, l[0].file, l[0].output));
      assert ListInText(r, l[1..]);
      WrapTokens(Redir(c, l[0].file, l[0].output), l[1..], r);
    }
  }

  lemma {:induction false} RedirsInText(r: string)
    requires ParseRedirs(r).Good?
    ensures ListInText(r, ParseRedirs(r).list)
    decreases |r|
  {
    hide InText, SkipWs, GetTok, Suffix;
    if Sees(r, {'<', '>'}) {
      var t := GetTok(r);
      var f := GetTok(t.rest);
      TokenInText(t.rest);
      InLonger(t.rest, r, f.word);
      RedirsInText(f.rest);
      SuffixTrans(f.rest, t.rest, r);
      ListInLonger(f.rest, r, ParseRedirs(f.rest).list);
    }
  }

  lemma {:induction false} ArgsParsed(argv: seq<Token>, l: seq<Redirect>, r: string, s: string)
    requires ParseArgs(argv, l, r).Ok? && Suffix(r, s) && ArgsInText(s, argv) && ListInText(s, l)
    ensures AllInText(s, ParseArgs(argv, l, r).cmd)
    decreases |r|
  {
    hide InText, SkipWs, GetTok, Suffix;
    if Sees(r, {'|', ')', '&', ';'}) || SkipWs(r) == [] {
      assert AllInText(s, Exec(argv));
      WrapTokens(Exec(argv), l, s);
    } else {
      var t := GetTok(r);
      TokenInText(r);
      InLonger(r, s, t.word);
      var p := ParseRedirs(t.rest);
      RedirsInText(t.rest);
      SuffixTrans(t.rest, r, s);
      ListInLonger(t.rest, s, p.list);
      SuffixTrans(p.rest, t.rest, s);
      ArgsParsed(argv + [t.word], l + p.list, p.rest, s);
    }
  }

  lemma {:induction false} ExecInText(r: string)
    requires ParseExec(r).Ok?
    ensures AllInText(r, ParseExec(r).cmd)
    decreases |r|, 1
  {
    hide InText, SkipWs, GetTok, Suffix, ParseArgs;
    if Sees(r, {'('}) {
      BlockInText(r);
    } else {
      RedirsInText(r);
      ArgsParsed([], ParseRedirs(r).list, ParseRedirs(r).rest, r);
    }
  }

  lemma {:induction false} BlockInText(r: string)
    requires Sees(r, {'('}) && ParseBlock(r).Ok?
    ensures AllInText(r, ParseBlock(r).cmd)
    decreases |r|, 0
  {
    hide InText, SkipWs, GetTok, Suffix, AllInText, ListInText;
    var t := GetTok(r);
    var p := ParseLine(t.rest);
    LineInText(t.rest);
    AllInLonger(t.rest, r, p.cmd);
    var u := GetTok(p.rest);
    RedirsInText(u.rest);
    SuffixTrans(p.rest, t.rest, r);
    SuffixTrans(u.rest, p.rest, r);
    ListInLonger(u.rest, r, ParseRedirs(u.rest).list);
    WrapTokens(p.cmd, ParseRedirs(u.rest).list, r);
  }

  lemma {:induction false} PipeInText(r: string)
    requires ParsePipe(r).Ok?
    ensures AllInText(r, ParsePipe(r).cmd)
    decreases |r|, 2
  {
    hide InText, SkipWs, GetTok, Suffix;
    ExecInText(r);
    var p := ParseExec(r);
    if Sees(p.rest, {'|'}) {
      var t := GetTok(p.rest);
      PipeInText(t.rest);
      SuffixTrans(t.rest, p.rest, r);
      AllInLonger(t.rest, r, ParsePipe(t.rest).cmd);
    }
  }

  lemma {:induction false} BacksTokens(c: Cmd<Token>, r: string)
    ensures Tokens(ParseBacks(c, r).cmd) == Tokens(c)
    decreases |r|
  {
    hide SkipWs, GetTok, Suffix;
    if Sees(r, {'&'}) { BacksTokens(Back(c), GetTok(r).rest); }
  }

  lemma {:induction false} LineInText(r: string)
    requires ParseLine(r).Ok?
    ensures AllInText(r, ParseLine(r).cmd)
    decreases |r|, 3
  {
    hide InText, SkipWs, GetTok, Suffix;
    PipeInText(r);
    var p := ParsePipe(r);
    var b := ParseBacks(p.cmd, p.rest);
    BacksTokens(p.cmd, p.rest);
    SuffixTrans(b.rest, p.rest, r);
    if Sees(b.rest, {';'}) {
      var t := GetTok(b.rest);
      LineInText(t.rest);
      SuffixTrans(t.rest, b.rest, r);
      AllInLonger(t.rest, r, ParseLine(t.rest).cmd);
    }
  }

  // ---- the zero bytes

  /** The position behind a word, where nulterminate stores a zero. */
  predicate EndsAt(c: Cmd<Token>, n: nat, i: nat) { exists t :: t in Tokens(c) && i + t.to == n }

  /** The bytes `b` after nulterminate has ended the words of `c`. */
  ghost predicate Ended(b: seq<char>, c: Cmd<Token>, n: nat, b': seq<char>)
  {
    && |b'| == |b| && forall i {:trigger b'[i]} :: 0 <= i < |b| ==> b'[i] == if EndsAt(c, n, i) then '\0' else b[i]
  }

  method Nulterminate(buf: array<char>, c: Cmd<Token>, n: nat)
    requires buf.Length == n + 1 && forall t :: t in Tokens(c) ==> t.to <= n
    modifies buf
    ensures Ended(old(buf[..]), c, n, buf[..])
    decreases c
  {
    match c
    case Exec(argv) =>
      var i := 0;
      while i < |argv|
        invariant 0 <= i <= |argv|
        invariant forall x :: 0 <= x < buf.Length ==>
          buf[x] == if exists k :: 0 <= k < i && x + argv[k].to == n then '\0' else old(buf[x])
      {
        assert argv[i] in Tokens(c);
        buf[n - argv[i].to] := '\0';
        i := i + 1;
      }
    case Redir(d, f, _) =>
      Nulterminate(buf, d, n);
      ghost var mid := buf[..];
      buf[n - f.to] := '\0';
      assert forall x :: 0 <= x <= n ==> (EndsAt(c, n, x) <==> EndsAt(d, n, x) || x + f.to == n) by { EndsMore(c, n); }
    case Pipe(l, r) =>
      Nulterminate(buf, l, n);
      Nulterminate(buf, r, n);
    case List(l, r) =>
      Nulterminate(buf, l, n);
      Nulterminate(buf, r, n);
    case Back(d) =>
      Nulterminate(buf, d, n);
  }

  lemma EndsMore(c: Cmd<Token>, n: nat)
    requires c.Redir?
    ensures forall x: nat :: EndsAt(c, n, x) <==> EndsAt(c.cmd, n, x) || x + c.file.to == n
  {
    forall x: nat ensures EndsAt(c, n, x) <==> EndsAt(c.cmd, n, x) || x + c.file.to == n {
      if x + c.file.to == n { assert c.file in Tokens(c); }
    }
  }

  /** The C string at a position: the bytes in front of the next zero. */
  function CString(b: seq<char>, q: nat): string
    decreases |b| - q
  {
    if q >= |b| || b[q] == '\0' then [] else [b[q]] + CString(b, q + 1)
  }

  lemma {:induction false} CStringIs(b: seq<char>, q: nat, w: string)
    requires q + |w| < |b| && b[q..q + |w|] == w && '\0' !in w && b[q + |w|] == '\0'
    ensures CString(b, q) == w
    decreases |w|
  {
    if w != [] {
      assert b[q] == b[q..q + |w|][0] == w[0];
      assert b[q + 1..q + |w|] == b[q..q + |w|][1..];
      CStringIs(b, q + 1, w[1..]);
    }
  }

  /** No zero byte lands inside a word. */
  lemma {:induction false} WordKept(s: string, c: Cmd<Token>, t: Token, k: nat)
    requires AllInText(s, c) && t in Tokens(c) && k < |t.text|
    ensures |t.text| + t.to <= |s| && s[|s| - t.to - |t.text| + k] == t.text[k]
    ensures !EndsAt(c, |s|, |s| - t.to - |t.text| + k)
  {
    hide Tokens, WordChar;
    var x := |s| - t.to - |t.text| + k;
    assert InText(s, t);
    assert t.text[k] == s[|s| - t.to - |t.text|..|s| - t.to][k] == s[x];
    forall u | u in Tokens(c) ensures x + u.to != |s| { assert InText(s, u); }
  }

  lemma {:induction false} WordIsCString(s: string, c: Cmd<Token>, b: seq<char>, t: Token)
    requires '\0' !in s && AllInText(s, c) && Ended(s + "\0", c, |s|, b) && t in Tokens(c)
    ensures |t.text| + t.to <= |s| && CString(b, |s| - t.to - |t.text|) == t.text
  {
    hide Tokens, WordChar, CString;
    assert InText(s, t);
    var q := |s| - t.to - |t.text|;
    forall k | 0 <= k < |t.text| ensures b[q + k] == t.text[k] && t.text[k] in s { WordKept(s, c, t, k); }
    assert EndsAt(c, |s|, |s| - t.to);
    assert b[q..q + |t.text|] == t.text;
    CStringIs(b, q, t.text);
  }

  /** After parsecmd every argument and file name is a C string equal to its token. */
  lemma WordsEnded(s: string, b: seq<char>, t: Token)
    requires '\0' !in s && ParseCmd(s).Ok? && Ended(s + "\0", ParseCmd(s).cmd, |s|, b) && t in Tokens(ParseCmd(s).cmd)
    ensures |t.text| + t.to <= |s| && CString(b, |s| - t.to - |t.text|) == t.text
  {
    hide ParseLine, Ended, Tokens, Suffix, SkipWs, CString, AllInText;
    LineInText(s);
    WordIsCString(s, ParseCmd(s).cmd, b, t);
  }
}
