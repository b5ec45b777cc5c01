/**
 * The complexity gauge: one plus the number of matches of
 * `\b(if|for|foreach|while|case|&&|\|\|\?|catch)\b` in the text, and the cognitive-load band
 * drawn next to it. The pattern is taken as written: `&&` between two spaces has no word
 * boundary on either side and is not counted, and `\|\|\?` is the three characters `||?`.
 */
module Complexity {
  import opened Wrappers
  import opened Text
  import opened Patterns
  import opened Scan
  import opened WholeWords

  /** Every token the gauge counts, in order. */
  function Tokens(text: string): (ms: seq<Match>)
    ensures ms == Matches(ComplexityToken, text)
    ensures forall k :: 0 <= k < |ms| ==>
      ms[k].start <= |text| && ComplexityTokenAt(text, ms[k].start) == Some(ms[k])
    ensures forall k :: 0 < k < |ms| ==> ms[k - 1].end <= ms[k].start
  {
    var a := Attempts(ComplexityToken, text);
    AttemptsIsTable(ComplexityToken, text);
    var ms := MatchAll(a, 0);
    assert forall k :: 0 <= k < |ms| ==> a[ms[k].start] == Some(ms[k]);
    ms
  }

  /** No token is missed: every position where a token matches lies inside a counted one. */
  lemma TokensCover(text: string, i: nat)
    requires i <= |text| && ComplexityTokenAt(text, i).Some?
    ensures exists k :: 0 <= k < |Tokens(text)| && Tokens(text)[k].start <= i < Tokens(text)[k].end
  {
    assert MatchAt(ComplexityToken, text, i).Some?;
    MatchesCover(ComplexityToken, text, i);
    var ms := Matches(ComplexityToken, text);
    var k :| 0 <= k < |ms| && ms[k].start <= i < ms[k].end;
    assert Tokens(text)[k] == ms[k];
  }

  /** `1 + keywords`: the gauge never shows less than 1. */
  function Score(text: string): (score: nat)
    ensures score >= 1 && score - 1 == |Tokens(text)|
  {
    1 + |Tokens(text)|
  }

  datatype Load = Low | Medium | High

  /** The band: High above 10, Medium above 6, Low otherwise. */
  function LoadOf(score: int): (load: Load)
    ensures load == High <==> score > 10
    ensures load == Medium <==> 7 <= score <= 10
    ensures load == Low <==> score <= 6
  {
    if score > 10 then High else if score > 6 then Medium else Low
  }

  /** No counted token contains a space. */
  lemma TokensHaveNoSpace()
    ensures forall tok :: tok in ComplexityTokens ==> tok != [] && ' ' !in tok
  {
  }

  /** Appending text that starts with a space leaves the literal tests inside the old text unchanged. */
  lemma {:induction false} LiteralTestPrefix(t: string, u: string, i: nat, alts: seq<string>)
    requires i <= |t| && u != [] && u[0] == ' '
    requires SpaceFree(alts)
    ensures BoundedLiteralAt(t + u, i, alts) == BoundedLiteralAt(t, i, alts)
  {
    if alts != [] {
      SpaceFreeSplit(alts);
      LiteralTestOne(t, u, i, alts[0]);
      LiteralTestPrefix(t, u, i, alts[1..]);
      BoundedLiteralStep(t, i, alts);
      BoundedLiteralStep(t + u, i, alts);
    }
  }

  /** No alternative contains a space. */
  predicate SpaceFree(alts: seq<string>) {
    forall x :: x in alts ==> ' ' !in x
  }

  lemma SpaceFreeSplit(alts: seq<string>)
    requires alts != [] && SpaceFree(alts)
    ensures ' ' !in alts[0] && SpaceFree(alts[1..])
  {
    assert alts[0] in alts;
    assert forall y :: y in alts[1..] ==> y in alts;
  }

  lemma BoundedLiteralStep(s: string, i: nat, alts: seq<string>)
    requires alts != []
    ensures BoundedLiteralAt(s, i, alts) ==
      if HasAt(s, i, alts[0]) && IsWordBoundary(s, i + |alts[0]|) then Some(alts[0])
      else BoundedLiteralAt(s, i, alts[1..])
  {
  }

  /** One alternative of the test: a literal free of spaces cannot reach into the appended text. */
  lemma LiteralTestOne(t: string, u: string, i: nat, x: string)
    requires i <= |t| && u != [] && u[0] == ' ' && ' ' !in x
    ensures (HasAt(t + u, i, x) && IsWordBoundary(t + u, i + |x|))
      == (HasAt(t, i, x) && IsWordBoundary(t, i + |x|))
  {
    var s := t + u;
    if i + |x| <= |t| {
      assert s[i..i + |x|] == t[i..i + |x|];
      BoundaryAppend(t, u, i + |x|);
    } else if i + |x| <= |s| {
      var k := |t| - i;
      assert s[i..i + |x|][k] == ' ';
      assert x[k] in x;
    }
  }

  /** A word boundary inside t, or at its end, is unaffected by appending text that starts with a non-word character. */
  lemma BoundaryAppend(t: string, u: string, i: nat)
    requires i <= |t| && u != [] && !IsWordChar(u[0])
    ensures IsWordBoundary(t + u, i) == IsWordBoundary(t, i)
  {
    if i > 0 {
      assert (t + u)[i - 1] == t[i - 1];
    }
    if i < |t| {
      assert (t + u)[i] == t[i];
    }
  }

  /** The token tests at the positions of t are the same in t + u when u starts with a space. */
  lemma TokenTestPrefix(t: string, u: string, i: nat)
    requires i <= |t| && u != [] && u[0] == ' '
    ensures ComplexityTokenAt(t + u, i) == ComplexityTokenAt(t, i)
  {
    assert IsWordBoundary(t + u, i) == IsWordBoundary(t, i) by {
      BoundaryAppend(t, u, i);
    }
    assert BoundedLiteralAt(t + u, i, ComplexityTokens) == BoundedLiteralAt(t, i, ComplexityTokens) by {
      TokensHaveNoSpace();
      assert SpaceFree(ComplexityTokens);
      LiteralTestPrefix(t, u, i, ComplexityTokens);
    }
  }

  /** In t + " " + kw the only token from |t| on is kw itself, ending the text. */
  lemma KeywordAtEnd(t: string, kw: string)
    requires kw in ComplexityTokens && IsWord(kw)
    ensures var s := t + " " + kw;
      ComplexityTokenAt(s, |t|).None?
      && ComplexityTokenAt(s, |t| + 1).Some? && ComplexityTokenAt(s, |t| + 1).value.end == |s|
  {
    var s := t + " " + kw;
    assert s[|t|] == ' ';
    assert s[|t| + 1..] == kw;
    TokensHaveNoSpace();
    NoLiteralAtSpace(s, |t|, ComplexityTokens);
    FinalWordToken(s, |t| + 1, kw);
  }

  /** A counted word that ends the text after a space is matched whole, up to the end. */
  lemma FinalWordToken(s: string, i: nat, kw: string)
    requires kw in ComplexityTokens && IsWord(kw)
    requires 0 < i && i + |kw| == |s| && s[i..] == kw && s[i - 1] == ' '
    ensures ComplexityTokenAt(s, i).Some? && ComplexityTokenAt(s, i).value.end == |s|
  {
    assert HasAt(s, i, kw);
    assert IsWordBoundary(s, i) by { assert s[i] == kw[0]; }
    assert IsWordBoundary(s, |s|) by { assert s[|s| - 1] == kw[|kw| - 1]; }
    NoInnerBoundary(s, i, kw);
    var r := BoundedLiteralAt(s, i, ComplexityTokens);
    assert r.Some?;
    assert |r.value| >= |kw|;
  }

  /** Strictly inside an occurrence of a word there is no word boundary. */
  lemma NoInnerBoundary(s: string, i: nat, kw: string)
    requires IsWord(kw) && HasAt(s, i, kw)
    ensures forall p :: i < p < i + |kw| ==> !IsWordBoundary(s, p)
  {
    forall p | i < p < i + |kw| ensures !IsWordBoundary(s, p) {
      InsideWord(s, kw, i, p);
    }
  }

  /** No literal free of spaces occurs at a space. */
  lemma NoLiteralAtSpace(s: string, i: nat, alts: seq<string>)
    requires i < |s| && s[i] == ' '
    requires forall x :: x in alts ==> x != [] && ' ' !in x
    ensures BoundedLiteralAt(s, i, alts).None?
  {
    forall x | x in alts
      ensures !HasAt(s, i, x)
    {
      NotAtSpace(s, i, x);
    }
  }

  lemma NotAtSpace(s: string, i: nat, x: string)
    requires i < |s| && s[i] == ' ' && x != [] && ' ' !in x
    ensures !HasAt(s, i, x)
  {
    if i + |x| <= |s| {
      assert s[i..i + |x|][0] == ' ';
      assert x[0] in x;
    }
  }

  /** Scanning t + " " + kw finds the tokens of t and then exactly one more. */
  lemma AppendedKeywordTokens(t: string, kw: string)
    requires kw in ComplexityTokens && IsWord(kw)
    ensures |Tokens(t + " " + kw)| == |Tokens(t)| + 1
  {
    var s := t + " " + kw;
    var a := Attempts(ComplexityToken, s);
    var b := Attempts(ComplexityToken, t);
    AttemptsIsTable(ComplexityToken, s);
    AttemptsIsTable(ComplexityToken, t);
    PrefixAttemptsAgree(t, kw);
    assert b[|b| - 1] == MatchAt(ComplexityToken, t, |t|);
    MatchAllSplit(a, b, 0);
    FinalTokens(t, kw);
  }

  /** The attempts inside t do not change when " " + kw is appended. */
  lemma PrefixAttemptsAgree(t: string, kw: string)
    ensures var a := Attempts(ComplexityToken, t + " " + kw); var b := Attempts(ComplexityToken, t);
      forall i :: 0 <= i < |b| - 1 ==> a[i] == b[i]
  {
    var u := " " + kw;
    assert t + " " + kw == t + u;
    var a := Attempts(ComplexityToken, t + u);
    var b := Attempts(ComplexityToken, t);
    forall i | 0 <= i < |b| - 1 ensures a[i] == b[i] {
      TokenTestPrefix(t, u, i);
    }
  }

  /** From the end of t on, the scan of t + " " + kw finds kw alone. */
  lemma FinalTokens(t: string, kw: string)
    requires kw in ComplexityTokens && IsWord(kw)
    ensures var a := Attempts(ComplexityToken, t + " " + kw);
      IsTable(a) && |MatchAll(a, |t|)| == 1
  {
    var s := t + " " + kw;
    var a := Attempts(ComplexityToken, s);
    AttemptsIsTable(ComplexityToken, s);
    KeywordAtEnd(t, kw);
    var m := a[|t| + 1].value;
    assert NextFrom(a, |t|) == |t| + 1;
    assert NextFrom(a, |t| + 1) == |s|;
    assert MatchAll(a, |s|) == [] by {
      assert a[|s|].None?;
      assert NextFrom(a, |s|) == |a|;
    }
    assert MatchAll(a, |t|) == [m];
  }

  /** Every extra keyword after a space raises the score by exactly one. */
  lemma ScoreAppendKeyword(t: string, kw: string)
    requires kw in ComplexityTokens && IsWord(kw)
    ensures Score(t + " " + kw) == Score(t) + 1
  {
    AppendedKeywordTokens(t, kw);
  }
}
