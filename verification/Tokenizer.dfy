/** Splitting a line at white space and a delimiter (scripts/rootinclude/ftns.h, split). */
module Tokenizer {

  predicate IsSpace(c: char) {
    c in {' ', '\t', '\n', '\r', '\U{0B}', '\U{0C}'}
  }

  /** White space is the blank and the codes from tab to carriage return. */
  lemma WhiteSpaceCodes(c: char)
    ensures IsSpace(c) <==> c as int == 32 || 9 <= c as int <= 13
  {
  }

  predicate IsSep(c: char, d: char) {
    IsSpace(c) || c == d
  }

  /** Length of the longest prefix without separators. */
  function WordLength(s: string, d: char): (n: nat)
    ensures n <= |s|
  {
    if s == [] || IsSep(s[0], d) then 0 else 1 + WordLength(s[1..], d)
  }

  function Tokens(s: string, d: char): seq<string> {
    if s == [] then []
    else if IsSep(s[0], d) then Tokens(s[1..], d)
    else [s[..WordLength(s, d)]] + Tokens(s[WordLength(s, d)..], d)
  }

  method Split(s: string, d: char) returns (ret: seq<string>)
    ensures ret == Tokens(s, d)
  {
    ret := [];
    var i := 0;
    while i != |s|
      invariant 0 <= i <= |s|
      invariant ret + Tokens(s[i..], d) == Tokens(s, d)
      decreases |s| - i
    {
      i := SkipSeps(s, i, d);
      var j := WordEnd(s, i, d);
      if i != j {
        assert s[i..][..j - i] == s[i..j] && s[i..][j - i..] == s[j..];
        ret := ret + [s[i..j]];
        i := j;
      }
    }
  }

  method SkipSeps(s: string, start: nat, d: char) returns (i: nat)
    requires start <= |s|
    ensures start <= i <= |s| && (i < |s| ==> !IsSep(s[i], d))
    ensures Tokens(s[i..], d) == Tokens(s[start..], d)
  {
    i := start;
    while i != |s| && (IsSpace(s[i]) || s[i] == d)
      invariant start <= i <= |s|
      invariant Tokens(s[i..], d) == Tokens(s[start..], d)
      decreases |s| - i
    {
      assert s[i..][1..] == s[i + 1..];
      i := i + 1;
    }
  }

  method WordEnd(s: string, start: nat, d: char) returns (j: nat)
    requires start <= |s|
    ensures start <= j <= |s| && j - start == WordLength(s[start..], d)
  {
    j := start;
    while j != |s| && s[j] != d && !IsSpace(s[j])
      invariant start <= j <= |s|
      invariant WordLength(s[start..], d) == j - start + WordLength(s[j..], d)
      decreases |s| - j
    {
      assert s[j..][1..] == s[j + 1..];
      j := j + 1;
    }
  }

  predicate IsWord(t: string, d: char) {
    t != [] && forall i :: 0 <= i < |t| ==> !IsSep(t[i], d)
  }

  predicate IsGap(g: string, d: char) {
    forall i :: 0 <= i < |g| ==> IsSep(g[i], d)
  }

  /** Words and the gaps around them: the inner gaps are not empty. */
  ghost predicate Fits(ts: seq<string>, gaps: seq<string>, d: char) {
    && |gaps| == |ts| + 1
    && (forall i :: 0 <= i < |ts| ==> IsWord(ts[i], d))
    && (forall i :: 0 <= i < |gaps| ==> IsGap(gaps[i], d))
    && (forall i :: 0 < i < |ts| ==> gaps[i] != [])
  }

  function Weave(ts: seq<string>, gaps: seq<string>): string
    requires |gaps| == |ts| + 1
  {
    if ts == [] then gaps[0] else gaps[0] + ts[0] + Weave(ts[1..], gaps[1..])
  }

  lemma {:induction false} GapIsSkipped(g: string, s: string, d: char)
    requires IsGap(g, d)
    ensures Tokens(g + s, d) == Tokens(s, d)
  {
    if g == [] {
      assert g + s == s;
    } else {
      assert (g + s)[1..] == g[1..] + s;
      GapIsSkipped(g[1..], s, d);
    }
  }

  lemma {:induction false} WordEnds(w: string, s: string, d: char)
    requires forall i :: 0 <= i < |w| ==> !IsSep(w[i], d)
    requires s == [] || IsSep(s[0], d)
    ensures WordLength(w + s, d) == |w|
  {
    if w == [] {
      assert w + s == s;
    } else {
      assert (w + s)[1..] == w[1..] + s;
      WordEnds(w[1..], s, d);
    }
  }

  /** Splitting any separator-joined list of words gives back the list. */
  lemma {:induction false} SplitOfWeave(ts: seq<string>, gaps: seq<string>, d: char)
    requires Fits(ts, gaps, d)
    ensures Tokens(Weave(ts, gaps), d) == ts
  {
    if ts == [] {
      GapIsSkipped(gaps[0], [], d);
      assert gaps[0] + [] == gaps[0];
    } else {
      var rest := Weave(ts[1..], gaps[1..]);
      SplitOfWeave(ts[1..], gaps[1..], d);
      GapIsSkipped(gaps[0], ts[0] + rest, d);
      assert gaps[0] + ts[0] + rest == gaps[0] + (ts[0] + rest);
      assert gaps[1..][0] == gaps[1];
      WordEnds(ts[0], rest, d);
      assert (ts[0] + rest)[..|ts[0]|] == ts[0] && (ts[0] + rest)[|ts[0]|..] == rest;
    }
  }

  lemma {:induction false} WordPrefix(s: string, d: char)
    ensures forall i :: 0 <= i < WordLength(s, d) ==> !IsSep(s[i], d)
    ensures var n := WordLength(s, d); n < |s| ==> IsSep(s[n], d)
  {
    if s != [] && !IsSep(s[0], d) {
      WordPrefix(s[1..], d);
    }
  }

  /** A separator before a line goes into its first gap. */
  lemma WeaveOfSep(c: char, ts: seq<string>, gaps: seq<string>, d: char)
    requires IsSep(c, d) && Fits(ts, gaps, d)
    ensures var wider := [[c] + gaps[0]] + gaps[1..];
            Fits(ts, wider, d) && Weave(ts, wider) == [c] + Weave(ts, gaps)
  {
    var wider := [[c] + gaps[0]] + gaps[1..];
    assert wider[1..] == gaps[1..];
    assert forall i :: 0 < i < |gaps| ==> wider[i] == gaps[i];
  }

  /** A word before a line that does not begin with a word is one more token. */
  lemma WeaveOfWord(w: string, ts: seq<string>, gaps: seq<string>, d: char)
    requires IsWord(w, d) && Fits(ts, gaps, d) && (ts != [] ==> gaps[0] != [])
    ensures Fits([w] + ts, [[]] + gaps, d) && Weave([w] + ts, [[]] + gaps) == w + Weave(ts, gaps)
  {
    assert ([w] + ts)[1..] == ts && ([[]] + gaps)[1..] == gaps;
    assert [] + w == w;
    var longer, wider := [w] + ts, [[]] + gaps;
    assert forall i :: 0 < i < |longer| ==> longer[i] == ts[i - 1];
    assert forall i :: 0 < i < |wider| ==> wider[i] == gaps[i - 1];
  }

  /** Every line is its tokens woven with gaps, so the tokens are non-empty and free of separators. */
  lemma {:induction false} LineIsWeave(s: string, d: char) returns (gaps: seq<string>)
    ensures Fits(Tokens(s, d), gaps, d) && Weave(Tokens(s, d), gaps) == s
    decreases |s|
  {
    if s == [] {
      gaps := [[]];
    } else if IsSep(s[0], d) {
      var rest := LineIsWeave(s[1..], d);
      gaps := [[s[0]] + rest[0]] + rest[1..];
      WeaveOfSep(s[0], Tokens(s[1..], d), rest, d);
    } else {
      var n := WordLength(s, d);
      var rest := LineIsWeave(s[n..], d);
      gaps := [[]] + rest;
      WordPrefix(s, d);
      var tail := Tokens(s[n..], d);
      if tail != [] {
        WordComesFirst(tail, rest, d);
      }
      WeaveOfWord(s[..n], tail, rest, d);
    }
  }

  lemma WordComesFirst(ts: seq<string>, gaps: seq<string>, d: char)
    requires Fits(ts, gaps, d) && ts != []
    ensures var s := Weave(ts, gaps); gaps[0] == [] ==> s != [] && !IsSep(s[0], d)
  {
    assert IsWord(ts[0], d);
  }

  /** The token list is the one way to read a line as words between gaps. */
  lemma TokensIff(s: string, d: char, ts: seq<string>)
    ensures Tokens(s, d) == ts <==> exists gaps :: Fits(ts, gaps, d) && Weave(ts, gaps) == s
  {
    var own := LineIsWeave(s, d);
    if gaps :| Fits(ts, gaps, d) && Weave(ts, gaps) == s {
      SplitOfWeave(ts, gaps, d);
    }
  }

  function Concat(ts: seq<string>): string {
    if ts == [] then [] else ts[0] + Concat(ts[1..])
  }

  function WithoutSeps(s: string, d: char): string {
    if s == [] then [] else (if IsSep(s[0], d) then [] else [s[0]]) + WithoutSeps(s[1..], d)
  }

  lemma {:induction false} WithoutSepsOfWord(w: string, s: string, d: char)
    requires forall i :: 0 <= i < |w| ==> !IsSep(w[i], d)
    ensures WithoutSeps(w + s, d) == w + WithoutSeps(s, d)
  {
    if w == [] {
      assert w + s == s;
    } else {
      assert (w + s)[1..] == w[1..] + s;
      WithoutSepsOfWord(w[1..], s, d);
    }
  }

  /** Nothing but separators is lost. */
  lemma {:induction false} TokensKeepTheRest(s: string, d: char)
    ensures Concat(Tokens(s, d)) == WithoutSeps(s, d)
    decreases |s|
  {
    if s != [] {
      if IsSep(s[0], d) {
        TokensKeepTheRest(s[1..], d);
      } else {
        var n := WordLength(s, d);
        WordPrefix(s, d);
        TokensKeepTheRest(s[n..], d);
        WithoutSepsOfWord(s[..n], s[n..], d);
        assert s[..n] + s[n..] == s;
      }
    }
  }

  /** Blanks, tabs and the delimiter separate alike, and runs of them count once. */
  lemma TokensOfALine(line: string, d: char)
    requires line == "a, b\tcd,," && d == ','
    ensures Tokens(line, d) == ["a", "b", "cd"]
  {
    var ts, gaps := ["a", "b", "cd"], ["", ", ", "\t", ",,"];
    assert ts[1..] == ["b", "cd"] && ts[1..][1..] == ["cd"] && ts[1..][1..][1..] == [];
    assert gaps[1..] == [", ", "\t", ",,"] && gaps[1..][1..] == ["\t", ",,"] && gaps[1..][1..][1..] == [",,"];
    assert Weave(ts[1..][1..], gaps[1..][1..]) == "\tcd,,";
    assert Weave(ts, gaps) == line;
    assert Fits(ts, gaps, d);
    SplitOfWeave(ts, gaps, d);
  }
}
