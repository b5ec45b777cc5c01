/**
 * The boolean simplifier: every match of `\((\w+)\s*==\s*false\s*&&\s*(\w+)\s*==\s*false\)`,
 * found by repeated `exec` on a global pattern, becomes one De Morgan hint. There is no cap
 * on the number of hints.
 */
module BooleanSimplifier {
  import opened Wrappers
  import opened Text
  import opened Patterns
  import opened Scan

  /** The two operands of a `(X == false && Y == false)` test. */
  datatype Hint = Hint(first: string, second: string)

  const PausedMessage: string := "Simplifier paused."
  const EmptyMessage: string := "No simplifications suggested."

  /** m is one of the matches the scan can return. */
  predicate IsConjunction(text: string, m: Match) {
    m.start <= |text| && MatchAt(FalseConjunction, text, m.start) == Some(m)
  }

  /** The operands a match captures. */
  function HintOf(text: string, m: Match): (h: Hint)
    requires IsConjunction(text, m)
    ensures IsWord(h.first) && IsWholeWordAt(text, m.groups[0].from, h.first)
    ensures IsWord(h.second) && IsWholeWordAt(text, m.groups[1].from, h.second)
    ensures m.start < m.groups[0].from && m.groups[0].to <= m.groups[1].from && m.groups[1].to < m.end
  {
    var g := m.groups;
    FalseConjunctionAtIff(text, m.start, m);
    WordStretch(text, g[0].from, g[0].to);
    WordStretch(text, g[1].from, g[1].to);
    DelimitedWordIsWhole(text, g[0]);
    DelimitedWordIsWhole(text, g[1]);
    Hint(GroupText(text, g[0]), GroupText(text, g[1]))
  }

  /** The text of a hint; the arrow is the script's glyph as its source spells it. */
  function Message(h: Hint): string {
    "Consider: (!" + h.first + " && !" + h.second + ") \U{00E2}\U{017E}\U{0153} !( "
      + h.first + " || " + h.second + " )"
  }

  /** One message per match, in order. */
  function Messages(text: string, ms: seq<Match>): (hs: seq<string>)
    requires AllConjunctions(text, ms)
    ensures |hs| == |ms|
  {
    if ms == [] then []
    else
      assert AllConjunctions(text, ms[1..]) by {
        assert forall k :: 1 <= k < |ms| ==> ms[1..][k - 1] == ms[k];
      }
      [Message(HintOf(text, ms[0]))] + Messages(text, ms[1..])
  }

  /** The k-th message is the hint of the k-th match. */
  lemma {:induction false} MessageAt(text: string, ms: seq<Match>, k: nat)
    requires AllConjunctions(text, ms) && k < |ms|
    ensures Messages(text, ms)[k] == Message(HintOf(text, ms[k]))
  {
    if k > 0 {
      assert ms[1..][k - 1] == ms[k];
      assert AllConjunctions(text, ms[1..]);
      MessageAt(text, ms[1..], k - 1);
    }
  }

  /** `booleanSimplifier()`: the loop `while ((m = pattern.exec(text)))`. */
  method Simplify(text: string, enabled: bool) returns (p: Panel<string>)
    ensures !enabled ==> p == Sentinel(PausedMessage)
    ensures enabled ==> p == ShowOrSentinel(Messages(text, Matches(FalseConjunction, text)), EmptyMessage)
  {
    if !enabled {
      return Sentinel(PausedMessage);
    }
    var a := Attempts(FalseConjunction, text);
    AttemptsIsTable(FalseConjunction, text);
    var hints := CollectHints(text, a);
    assert Matches(FalseConjunction, text) == MatchAll(a, 0);
    p := ShowOrSentinel(hints, EmptyMessage);
  }

  /** Every match the table holds is a match of the pattern in the text. */
  predicate IsConjunctionTable(text: string, a: seq<Option<Match>>) {
    IsTable(a) && forall i :: 0 <= i < |a| && a[i].Some? ==> IsConjunction(text, a[i].value)
  }

  predicate AllConjunctions(text: string, ms: seq<Match>) {
    forall k :: 0 <= k < |ms| ==> IsConjunction(text, ms[k])
  }

  /** The loop of `booleanSimplifier()` over the attempts table: `exec` from lastIndex until it fails. */
  method CollectHints(text: string, a: seq<Option<Match>>) returns (hints: seq<string>)
    requires IsConjunctionTable(text, a) && |a| > 0
    ensures AllConjunctions(text, MatchAll(a, 0)) && hints == Messages(text, MatchAll(a, 0))
  {
    hints := [];
    var lastIndex := 0;
    var m := Exec(a, lastIndex);
    while m.Some?
      invariant lastIndex < |a| && m == Exec(a, lastIndex)
      invariant AllConjunctions(text, MatchAll(a, lastIndex))
      invariant AllConjunctions(text, MatchAll(a, 0))
      invariant hints + Messages(text, MatchAll(a, lastIndex)) == Messages(text, MatchAll(a, 0))
      decreases |a| - lastIndex
    {
      var found := m.value;
      ExecStep(text, a, lastIndex);
      var hint := Message(HintOf(text, found));
      ConsMoves(hints, hint, Messages(text, MatchAll(a, found.end)), Messages(text, MatchAll(a, 0)));
      hints := hints + [hint];
      lastIndex := found.end;
      m := Exec(a, lastIndex);
    }
  }

  lemma ConsMoves(done: seq<string>, x: string, rest: seq<string>, total: seq<string>)
    requires done + ([x] + rest) == total
    ensures (done + [x]) + rest == total
  {
    assert done + ([x] + rest) == (done + [x]) + rest;
  }

  /** One turn of the loop: the match `exec` returns adds its hint, and the scan resumes at its end. */
  lemma ExecStep(text: string, a: seq<Option<Match>>, from: nat)
    requires IsConjunctionTable(text, a) && from < |a| && Exec(a, from).Some?
    ensures var found := Exec(a, from).value;
      from < found.end < |a| && IsConjunction(text, found) && AllConjunctions(text, MatchAll(a, found.end))
      && AllConjunctions(text, MatchAll(a, from))
      && Messages(text, MatchAll(a, from)) == [Message(HintOf(text, found))] + Messages(text, MatchAll(a, found.end))
  {
    var found := Exec(a, from).value;
    var rest := MatchAll(a, found.end);
    assert MatchAll(a, from) == [found] + rest;
    assert ([found] + rest)[1..] == rest;
  }

  /** Every position where the pattern matches lies inside a match that produced a hint. */
  lemma EveryConjunctionHinted(text: string, i: nat)
    requires i <= |text| && FalseConjunctionAt(text, i).Some?
    ensures var ms := Matches(FalseConjunction, text);
      exists k :: 0 <= k < |ms| && ms[k].start <= i < ms[k].end
  {
    assert MatchAt(FalseConjunction, text, i).Some?;
    MatchesCover(FalseConjunction, text, i);
  }

  /** A match at the very start that the scan reaches first yields the first hint, naming its operands. */
  lemma FirstHint(text: string)
    requires text != [] && FalseConjunctionAt(text, 0).Some?
    ensures var ms := Matches(FalseConjunction, text);
      ms != [] && ms[0] == FalseConjunctionAt(text, 0).value
  {
    var a := Attempts(FalseConjunction, text);
    AttemptsIsTable(FalseConjunction, text);
    assert a[0].Some?;
  }

  /** `(flag == false && other == false)` gives exactly one hint, naming `flag` and `other`. */
  lemma SimplifierExample(text: string)
    requires text == "(flag == false && other == false)"
    ensures Messages(text, Matches(FalseConjunction, text)) == [Message(Hint("flag", "other"))]
  {
    var m := Match(0, 33, [Span(1, 5), Span(18, 23)]);
    assert text == "(flag" + " == " + "false" + " && " + "other" + " == " + "false" + ")";
    ExampleMatches(text);
    ExampleHint(text);
    var hs := Messages(text, [m]);
    assert |hs| == 1 && hs[0] == Message(HintOf(text, m));
  }

  /** The rewrite the hint proposes for the example: `!( flag || other )`. */
  lemma ExampleMessage()
    ensures EndsWith(Message(Hint("flag", "other")), " !( flag || other )")
  {
  }

  /** The scan of the example finds the one match at 0 and nothing after its end. */
  lemma ExampleMatches(text: string)
    requires text == "(flag" + " == " + "false" + " && " + "other" + " == " + "false" + ")"
    ensures Matches(FalseConjunction, text) == [Match(0, 33, [Span(1, 5), Span(18, 23)])]
  {
    var m := Match(0, 33, [Span(1, 5), Span(18, 23)]);
    var a := Attempts(FalseConjunction, text);
    AttemptsIsTable(FalseConjunction, text);
    ExampleAttempts(text, a);
    MatchAllSingle(a, 0, m);
  }

  /** The attempts on the example: the match at 0, and nothing at the end of the text. */
  lemma ExampleAttempts(text: string, a: seq<Option<Match>>)
    requires text == "(flag" + " == " + "false" + " && " + "other" + " == " + "false" + ")"
    requires a == Attempts(FalseConjunction, text)
    ensures |a| == 34 && a[0] == Some(Match(0, 33, [Span(1, 5), Span(18, 23)])) && a[33].None?
  {
    assert |text| == 33;
    FalseConjunctionExampleSteps(text);
    AttemptOfConjunction(text, a, 0);
    AttemptOfConjunction(text, a, 33);
  }

  /** The attempt at i is the simplifier pattern's match at i. */
  lemma AttemptOfConjunction(text: string, a: seq<Option<Match>>, i: nat)
    requires a == Attempts(FalseConjunction, text) && i <= |text|
    ensures a[i] == FalseConjunctionAt(text, i)
  {
    assert a[i] == MatchAt(FalseConjunction, text, i);
  }

  /** The example's match captures `flag` and `other`. */
  lemma ExampleHint(text: string)
    requires text == "(flag" + " == " + "false" + " && " + "other" + " == " + "false" + ")"
    ensures var m := Match(0, 33, [Span(1, 5), Span(18, 23)]);
      IsConjunction(text, m) && HintOf(text, m) == Hint("flag", "other")
  {
    ExampleIsConjunction(text);
    ExampleOperands(text);
  }

  lemma ExampleIsConjunction(text: string)
    requires text == "(flag" + " == " + "false" + " && " + "other" + " == " + "false" + ")"
    ensures IsConjunction(text, Match(0, 33, [Span(1, 5), Span(18, 23)]))
  {
    FalseConjunctionExampleSteps(text);
    ConjunctionFromAt(text, Match(0, 33, [Span(1, 5), Span(18, 23)]));
  }

  lemma ConjunctionFromAt(text: string, m: Match)
    requires m.start <= |text| && FalseConjunctionAt(text, m.start) == Some(m)
    ensures IsConjunction(text, m)
  {
  }

  lemma ExampleOperands(text: string)
    requires text == "(flag" + " == " + "false" + " && " + "other" + " == " + "false" + ")"
    ensures text[1..5] == "flag" && text[18..23] == "other"
  {
  }
}
