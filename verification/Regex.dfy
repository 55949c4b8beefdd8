/** The matcher of user/grep.c against the language its patterns denote.  A string is the text of a
    C string before its terminator. */
module Regex {
  /** A pattern is a list of items, each one character or `.`, possibly starred. */
  datatype Item = One(c: char) | Star(c: char)

  predicate Fits(c: char, x: char) { c == '.' || c == x }

  /** A star is looked for before anything else; `$` is an anchor only as the last character. */
  function Items(re: string): seq<Item>
  {
    if re == [] then []
    else if |re| > 1 && re[1] == '*' then [Star(re[0])] + Items(re[2..])
    else if re == "$" then []
    else [One(re[0])] + Items(re[1..])
  }

  predicate ToEnd(re: string)
  {
    if re == [] then false
    else if |re| > 1 && re[1] == '*' then ToEnd(re[2..])
    else re == "$" || ToEnd(re[1..])
  }

  ghost predicate AllFit(c: char, s: string) { forall i :: 0 <= i < |s| ==> Fits(c, s[i]) }

  /** The language of a list of items. */
  ghost predicate InLang(items: seq<Item>, s: string)
    decreases |items|
  {
    if items == [] then s == []
    else match items[0]
      case One(c) => s != [] && Fits(c, s[0]) && InLang(items[1..], s[1..])
      case Star(c) => exists k :: 0 <= k <= |s| && AllFit(c, s[..k]) && InLang(items[1..], s[k..])
  }

  /** The first `n` characters of the text belong to the language, and are all of it if anchored. */
  ghost predicate HereAt(re: string, text: string, n: nat)
  {
    n <= |text| && InLang(Items(re), text[..n]) && (ToEnd(re) ==> n == |text|)
  }

  ghost predicate Here(re: string, text: string) { exists n: nat :: HereAt(re, text, n) }

  /** `c*` followed by the rest, tried after the first `k` characters. */
  ghost predicate StarAt(c: char, re: string, text: string, k: nat)
  {
    k <= |text| && AllFit(c, text[..k]) && Here(re, text[k..])
  }

  ghost predicate Matches(re: string, text: string)
  {
    if re != [] && re[0] == '^' then Here(re[1..], text)
    else exists i :: 0 <= i <= |text| && Here(re, text[i..])
  }

  lemma HereEmpty(text: string)
    ensures Here([], text)
  {
    assert HereAt([], text, 0);
  }

  lemma HereEnd(text: string)
    ensures Here("$", text) <==> text == []
  {
    assert ToEnd("$") && Items("$") == [];
    if text == [] { assert HereAt("$", text, 0); }
  }

  lemma HereOne(re: string, text: string)
    requires re != [] && re != "$" && !(|re| > 1 && re[1] == '*')
    ensures Here(re, text) <==> text != [] && Fits(re[0], text[0]) && Here(re[1..], text[1..])
  {
    assert Items(re) == [One(re[0])] + Items(re[1..]) && Items(re)[1..] == Items(re[1..]);
    if Here(re, text) {
      var n: nat :| HereAt(re, text, n);
      assert text[..n][1..] == text[1..][..n - 1];
      assert HereAt(re[1..], text[1..], n - 1);
    }
    if text != [] && Fits(re[0], text[0]) && Here(re[1..], text[1..]) {
      var n: nat :| HereAt(re[1..], text[1..], n);
      assert text[..n + 1][1..] == text[1..][..n];
      assert HereAt(re, text, n + 1);
    }
  }

  lemma HereStar(re: string, text: string)
    requires |re| > 1 && re[1] == '*'
    ensures Here(re, text) <==> exists k: nat :: StarAt(re[0], re[2..], text, k)
  {
    var c, items := re[0], Items(re);
    assert items[0] == Star(c) && items[1..] == Items(re[2..]);
    if Here(re, text) {
      var n: nat :| HereAt(re, text, n);
      var s := text[..n];
      var k :| 0 <= k <= |s| && AllFit(c, s[..k]) && InLang(items[1..], s[k..]);
      assert s[..k] == text[..k] && s[k..] == text[k..][..n - k];
      assert HereAt(re[2..], text[k..], n - k);
      assert StarAt(c, re[2..], text, k);
    }
    if k: nat :| StarAt(c, re[2..], text, k) {
      var n: nat :| HereAt(re[2..], text[k..], n);
      var s := text[..k + n];
      assert s[..k] == text[..k] && s[k..] == text[k..][..n];
      assert InLang(items, s);
      assert HereAt(re, text, k + n);
    }
  }

  /** matchhere. */
  method MatchHere(re: string, text: string) returns (r: bool)
    ensures r <==> Here(re, text)
    decreases |re|, 0
  {
    if |re| == 0 {
      HereEmpty(text);
      return true;
    }
    if |re| > 1 && re[1] == '*' {
      HereStar(re, text);
      r := MatchStar(re[0], re[2..], text);
      return;
    }
    if re[0] == '$' && |re| == 1 {
      HereEnd(text);
      return |text| == 0;
    }
    HereOne(re, text);
    if |text| > 0 && (re[0] == '.' || re[0] == text[0]) {
      r := MatchHere(re[1..], text[1..]);
      return;
    }
    return false;
  }

  /** matchstar: the rest is tried behind ever longer runs of `c`. */
  method MatchStar(c: char, re: string, text: string) returns (r: bool)
    ensures r <==> exists k: nat :: StarAt(c, re, text, k)
    decreases |re|, 1
  {
    var t := 0;
    while true
      invariant 0 <= t <= |text| && AllFit(c, text[..t])
      invariant forall k :: 0 <= k < t ==> !StarAt(c, re, text, k)
      decreases |text| - t
    {
      var here := MatchHere(re, text[t..]);
      if here {
        assert StarAt(c, re, text, t);
        return true;
      }
      if t == |text| || !(text[t] == c || c == '.') {
        forall k | t < k <= |text| ensures !AllFit(c, text[..k]) { assert text[..k][t] == text[t]; }
        return false;
      }
      t := t + 1;
    }
  }

  /** match: the pattern is found somewhere in the text, or at its start if it begins with `^`. */
  method Match(re: string, text: string) returns (r: bool)
    ensures r <==> Matches(re, text)
  {
    if |re| > 0 && re[0] == '^' {
      r := MatchHere(re[1..], text);
      return;
    }
    var t := 0;
    while true
      invariant 0 <= t <= |text| && forall i :: 0 <= i < t ==> !Here(re, text[i..])
      decreases |text| - t
    {
      var here := MatchHere(re, text[t..]);
      if here { return true; }
      if t == |text| { return false; }
      t := t + 1;
    }
  }

  // ---- printing a pattern

  /** A pattern without characters that mean something else where they stand. */
  predicate Plain(items: seq<Item>) { forall i :: 0 <= i < |items| ==> items[i].c !in {'*', '$', '^'} }

  function Printed(items: seq<Item>): string
  {
    if items == [] then [] else (match items[0] case One(c) => [c] case Star(c) => [c, '*']) + Printed(items[1..])
  }

  /** Every list of plain items is the meaning of its own text. */
  lemma {:induction false} PrintedItems(items: seq<Item>)
    requires Plain(items)
    ensures Items(Printed(items)) == items && !ToEnd(Printed(items))
    ensures Printed(items) == [] || Printed(items)[0] !in {'*', '$', '^'}
    decreases |items|
  {
    if items != [] {
      var rest, p := items[1..], Printed(items);
      PrintedItems(rest);
      match items[0]
      case One(c) =>
        assert p[1..] == Printed(rest);
      case Star(c) =>
        assert p[2..] == Printed(rest);
    }
  }
}
