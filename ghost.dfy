/**
 * The ghost-text suggestion: when the trimmed text of the caret's line, up to the caret,
 * ends in `.Where(`, in `for` and white space and `(`, or in `Console.WriteLine(`, the
 * editor shows a completion at the caret. The three tests run one after the other, so the
 * last one that holds wins; at most one of them holds (PatternsExclusive).
 */
module GhostSuggestion {
  import opened Wrappers
  import opened Text
  import opened LineIndex

  const WhereCompletion: string := "x => x > 0)"
  const ForCompletion: string := "int i = 0; i < items.Count; i++)"
  const ConsoleCompletion: string := "\"Debug\" + value)"

  /** `/\.Where\($/`. */
  predicate EndsInWhere(s: string) {
    EndsWith(s, ".Where(")
  }

  /** `/Console\.WriteLine\($/`. */
  predicate EndsInConsole(s: string) {
    EndsWith(s, "Console.WriteLine(")
  }

  /** Start of the run of white space that ends at j. */
  function SpaceRunStart(s: string, j: nat): (i: nat)
    requires j <= |s|
    ensures i <= j
    ensures forall k :: i <= k < j ==> IsSpace(s[k])
    ensures i == 0 || !IsSpace(s[i - 1])
  {
    if j > 0 && IsSpace(s[j - 1]) then SpaceRunStart(s, j - 1) else j
  }

  /**
   * `/for\s*\($/`: the last character is `(` and `for` stands right before the white space
   * that precedes it. The pattern has no `\b`, so `xfor (` also qualifies.
   */
  predicate EndsInFor(s: string) {
    s != [] && s[|s| - 1] == '('
    && var j := SpaceRunStart(s, |s| - 1);
    j >= 3 && s[j - 3..j] == "for"
  }

  /** The computed test agrees with the pattern's reading: some `for`, then only white space, then the final `(`. */
  lemma EndsInForIff(s: string)
    ensures EndsInFor(s) <==> s != [] && s[|s| - 1] == '(' && exists i: nat ::
      (i + 4 <= |s| && HasAt(s, i, "for") && forall k :: i + 3 <= k < |s| - 1 ==> IsSpace(s[k]))
  {
    if s != [] && s[|s| - 1] == '(' {
      var j := SpaceRunStart(s, |s| - 1);
      if EndsInFor(s) {
        assert HasAt(s, j - 3, "for");
      }
      if exists i: nat ::
        (i + 4 <= |s| && HasAt(s, i, "for") && forall k :: i + 3 <= k < |s| - 1 ==> IsSpace(s[k]))
      {
        var i: nat :| i + 4 <= |s| && HasAt(s, i, "for")
          && forall k :: i + 3 <= k < |s| - 1 ==> IsSpace(s[k]);
        ForRunStart(s, i, j);
      }
    }
  }

  /** The `r` of a `for` ends every run of white space it precedes, so the run starts right after it. */
  lemma ForRunStart(s: string, i: nat, j: nat)
    requires s != [] && i + 4 <= |s| && HasAt(s, i, "for")
    requires forall k :: i + 3 <= k < |s| - 1 ==> IsSpace(s[k])
    requires j == SpaceRunStart(s, |s| - 1)
    ensures j == i + 3
  {
    assert s[i + 2] == 'r';
  }

  /** No text passes two of the three tests. */
  lemma PatternsExclusive(s: string)
    ensures !(EndsInWhere(s) && EndsInFor(s))
    ensures !(EndsInWhere(s) && EndsInConsole(s))
    ensures !(EndsInFor(s) && EndsInConsole(s))
  {
    if EndsInWhere(s) || EndsInConsole(s) {
      assert s[|s| - 2] == 'e';
      ForBeforeParen(s);
    }
    if EndsInWhere(s) {
      assert s[|s| - 3] == 'r';
    }
    if EndsInConsole(s) {
      assert s[|s| - 3] == 'n';
    }
  }

  /** Under the `for` test, the character before the final `(` is white space or the `r` of `for`. */
  lemma ForBeforeParen(s: string)
    requires |s| >= 2
    ensures EndsInFor(s) ==> IsSpace(s[|s| - 2]) || s[|s| - 2] == 'r'
  {
    if EndsInFor(s) {
      var j := SpaceRunStart(s, |s| - 1);
      if j == |s| - 1 {
        assert s[j - 3..j][2] == 'r';
      }
    }
  }

  /** The suggestion the three tests leave behind; None when none holds. */
  function Completion(trimmed: string): (r: Option<string>)
    ensures r == Some(WhereCompletion) <==> EndsInWhere(trimmed)
    ensures r == Some(ForCompletion) <==> EndsInFor(trimmed)
    ensures r == Some(ConsoleCompletion) <==> EndsInConsole(trimmed)
    ensures r.None? <==> !EndsInWhere(trimmed) && !EndsInFor(trimmed) && !EndsInConsole(trimmed)
  {
    PatternsExclusive(trimmed);
    if EndsInConsole(trimmed) then Some(ConsoleCompletion)
    else if EndsInFor(trimmed) then Some(ForCompletion)
    else if EndsInWhere(trimmed) then Some(WhereCompletion)
    else None
  }

  /** The ghost text and where it is drawn: the one-based line of the caret and the column in its line. */
  datatype Ghost = Ghost(completion: string, line: nat, column: nat)

  /** The part of the caret's line before the caret: `left.split('\n').pop()`. */
  function CurrentLine(text: string, cursor: nat): (current: string)
    ensures var left := Before(text, cursor);
      |current| <= |left| && current == left[|left| - |current|..] && '\n' !in current
      && (|current| == |left| || left[|left| - |current| - 1] == '\n')
  {
    LastLine(Before(text, cursor))
  }

  /** `showGhostSuggestion()`: the suggestion, if any, anchored at the caret. */
  function GhostAt(text: string, cursor: nat): (g: Option<Ghost>)
    ensures g.Some? <==> Completion(Trim(CurrentLine(text, cursor))).Some?
    ensures g.Some? ==> g.value.completion == Completion(Trim(CurrentLine(text, cursor))).value
    ensures g.Some? ==> g.value.line == CaretLine(text, cursor) + 1
    ensures g.Some? ==> g.value.column == |CurrentLine(text, cursor)|
  {
    var left := Before(text, cursor);
    var current := LastLine(left);
    match Completion(Trim(current))
    case None => None
    case Some(c) => Some(Ghost(c, |Split(left)|, |current|))
  }

  /** Text after the caret never changes the suggestion. */
  lemma GhostIgnoresTail(text: string, cursor: nat, tail: string)
    requires cursor <= |text|
    ensures GhostAt(text[..cursor] + tail, cursor) == GhostAt(text, cursor)
  {
    assert Before(text[..cursor] + tail, cursor) == Before(text, cursor);
  }
}
