/**
 * The state timeline: the first twelve matches of `(\w+)\s*([+\-*\/]?=)\s*([^;]+);`,
 * numbered t0, t1, ... and shown as variable, operator and expression.
 */
module StateTimeline {
  import opened Wrappers
  import opened Text
  import opened Patterns
  import opened Scan

  /** One row of the timeline. */
  datatype Entry = Entry(index: nat, variable: string, operator: string, expression: string)

  const PausedMessage: string := "State tracking paused."
  const EmptyMessage: string := "No tracked updates."
  const MaxEntries: nat := 12

  /** m is one of the matches the assignment scan can return. */
  predicate IsUpdate(text: string, m: Match) {
    m.start <= |text| && AssignmentAt(text, m.start) == Some(m)
  }

  /** Every match of the assignment pattern in the text, in order. */
  function Updates(text: string): (ms: seq<Match>)
    ensures ms == Matches(Assignment, text)
    ensures forall k :: 0 <= k < |ms| ==> IsUpdate(text, ms[k])
    ensures forall k :: 0 < k < |ms| ==> ms[k - 1].end <= ms[k].start
  {
    Matches(Assignment, text)
  }

  /** No assignment is skipped: every place where the pattern matches lies inside a found one. */
  lemma UpdatesCover(text: string, i: nat)
    requires i <= |text| && AssignmentAt(text, i).Some?
    ensures exists k :: 0 <= k < |Updates(text)| && Updates(text)[k].start <= i < Updates(text)[k].end
  {
    assert MatchAt(Assignment, text, i).Some?;
    MatchesCover(Assignment, text, i);
    var ms := Matches(Assignment, text);
    var k :| 0 <= k < |ms| && ms[k].start <= i < ms[k].end;
    assert Updates(text)[k] == ms[k];
  }

  /**
   * `(\w+)` has no `\b` in front of it: wherever the pattern matches right after a word
   * character, it also matches one character earlier, with the longer word.
   */
  lemma AssignmentExtendsLeft(s: string, i: nat, m: Match)
    requires 0 < i <= |s| && AssignmentAt(s, i) == Some(m) && IsWordChar(s[i - 1])
    ensures AssignmentAt(s, i - 1) == Some(Match(i - 1, m.end, [Span(i - 1, m.groups[0].to), m.groups[1], m.groups[2]]))
  {
    AssignmentAtIff(s, i, m);
    var n := Match(i - 1, m.end, [Span(i - 1, m.groups[0].to), m.groups[1], m.groups[2]]);
    assert AllInClass(s, i - 1, m.groups[0].to, WordChars);
    assert AssignmentShape(s, i - 1, n);
    AssignmentAtIff(s, i - 1, n);
  }

  /**
   * A match is at a word boundary when, from some earlier position f that is the start of
   * the text or follows a `;`, the pattern matches nowhere before it.
   */
  lemma UpdateAfterGapIsAtBoundary(text: string, m: Match, f: nat)
    requires IsUpdate(text, m) && f <= m.start
    requires forall i :: f <= i < m.start ==> MatchAt(Assignment, text, i).None?
    requires f == 0 || (f <= |text| && text[f - 1] == ';')
    ensures IsWordBoundary(text, m.start)
  {
    var st := m.start;
    AllInClassAt(text, st, m.groups[0].to, WordChars, st);
    if 0 < st && IsWordChar(text[st - 1]) {
      if f < st {
        assert MatchAt(Assignment, text, st - 1) == AssignmentAt(text, st - 1);
        AssignmentExtendsLeft(text, st, m);
        assert false;
      } else {
        assert false;
      }
    }
  }

  /**
   * Every update the scan finds starts at a word boundary: the scan tries the positions from
   * the left, and the position before a found match either was tried without success or
   * holds the `;` of the previous match.
   */
  lemma UpdatesStartAtWordBoundary(text: string, k: nat)
    requires k < |Updates(text)|
    ensures IsWordBoundary(text, Updates(text)[k].start)
  {
    var f := GapBefore(text, k);
    UpdateAfterGapIsAtBoundary(text, Updates(text)[k], f);
  }

  /** Where the scan resumed before update k: the start of the text or just after a `;`. */
  lemma GapBefore(text: string, k: nat) returns (f: nat)
    requires k < |Updates(text)|
    ensures var m := Updates(text)[k];
      IsUpdate(text, m) && f <= m.start && forall i :: f <= i < m.start ==> MatchAt(Assignment, text, i).None?
    ensures f == 0 || (f <= |text| && text[f - 1] == ';')
  {
    var ms := Matches(Assignment, text);
    f := if k == 0 then 0 else ms[k - 1].end;
    MatchesGap(Assignment, text, k);
    if k > 0 {
      UpdateEndsWithSemicolon(text, ms[k - 1]);
    }
  }

  /** An update ends with the `;` of its statement. */
  lemma UpdateEndsWithSemicolon(text: string, m: Match)
    requires IsUpdate(text, m)
    ensures 0 < m.end <= |text| && text[m.end - 1] == ';'
  {
  }

  /**
   * The row for match m: the word that starts the match, the operator, and the expression
   * up to the `;` that ends the match.
   */
  function EntryOf(text: string, m: Match, index: nat): (e: Entry)
    requires IsUpdate(text, m)
    ensures e.index == index
    ensures IsWord(e.variable) && HasAt(text, m.start, e.variable)
    ensures m.start + |e.variable| < |text| && !IsWordChar(text[m.start + |e.variable|])
    ensures var g := m.groups;
      Spaces(text, m.start + |e.variable|, g[1].from) && HasAt(text, g[1].from, e.operator)
      && g[1].to == g[1].from + |e.operator|
    ensures e.operator in AssignmentOperators
    ensures var g := m.groups;
      ValueShape(text, g[1].to, g[2]) && e.expression == text[g[2].from..g[2].to]
    ensures e.expression != [] && ';' !in e.expression
    ensures |e.expression| < m.end && HasAt(text, m.end - 1 - |e.expression|, e.expression)
    ensures text[m.end - 1] == ';'
  {
    var g := m.groups;
    AssignmentAtIff(text, m.start, m);
    var variable := GroupText(text, g[0]);
    var expression := GroupText(text, g[2]);
    WordStretch(text, g[0].from, g[0].to);
    NoSemicolonStretch(text, g[2].from, g[2].to);
    assert ';' !in expression;
    assert m.end - 1 - |expression| == g[2].from;
    Entry(index, variable, GroupText(text, g[1]), expression)
  }

  /** A match that starts at a word boundary names a whole word as its variable. */
  lemma EntryVariableIsWhole(text: string, m: Match, index: nat)
    requires IsUpdate(text, m) && IsWordBoundary(text, m.start)
    ensures IsWholeWordAt(text, m.start, EntryOf(text, m, index).variable)
  {
    var v := EntryOf(text, m, index).variable;
    var j := m.start + |v|;
    assert IsWordChar(text[j - 1]) by {
      assert text[m.start..j][|v| - 1] == v[|v| - 1];
    }
  }

  /** The variable of every row of the timeline is a whole word of the text. */
  lemma UpdateVariableIsWhole(text: string, k: nat, index: nat)
    requires k < |Updates(text)|
    ensures var m := Updates(text)[k];
      IsWholeWordAt(text, m.start, EntryOf(text, m, index).variable)
  {
    UpdatesStartAtWordBoundary(text, k);
    EntryVariableIsWhole(text, Updates(text)[k], index);
  }

  /** The rows for the given matches, numbered from 0. */
  function Entries(text: string, ms: seq<Match>): (es: seq<Entry>)
    requires forall k :: 0 <= k < |ms| ==> IsUpdate(text, ms[k])
    ensures |es| == |ms|
    ensures forall k :: 0 <= k < |es| ==> es[k] == EntryOf(text, ms[k], k)
  {
    seq(|ms|, k requires 0 <= k < |ms| => EntryOf(text, ms[k], k))
  }

  /** `buildStateTimeline()`. */
  function Timeline(text: string, enabled: bool): (p: Panel<Entry>)
    ensures !enabled ==> p == Sentinel(PausedMessage)
    ensures enabled ==> (p.Sentinel? <==> Updates(text) == [])
    ensures enabled && p.Sentinel? ==> p.message == EmptyMessage
    ensures p.Listed? ==> |p.items| == Min(MaxEntries, |Updates(text)|)
  {
    if !enabled then Sentinel(PausedMessage)
    else ShowOrSentinel(Entries(text, Take(Updates(text), MaxEntries)), EmptyMessage)
  }

  /** The k-th row is the k-th update of the text, numbered k. */
  lemma TimelineRows(text: string, enabled: bool, k: nat)
    requires Timeline(text, enabled).Listed? && k < |Timeline(text, enabled).items|
    ensures var e := Timeline(text, enabled).items[k];
      k < |Updates(text)| && e == EntryOf(text, Updates(text)[k], k) && e.index == k
  {
  }

  /** Rows come in the order of the text: each row's match ends before the next one starts. */
  lemma TimelineInTextOrder(text: string, j: nat, k: nat)
    requires j < k < |Updates(text)|
    ensures Updates(text)[j].end <= Updates(text)[k].start
  {
    var a := Attempts(Assignment, text);
    AttemptsIsTable(Assignment, text);
    MatchAllOrdered(a, 0, j, k);
  }
}
