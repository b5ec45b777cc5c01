/**
 * The debug run: the first five matches of
 * `\b(int|var|bool|string|double)\s+(\w+)\s*=\s*([^;]+)` become trace lines
 * `[Trace] name = value` between a fixed header and footer, and, when debug tips are on,
 * one `name: value` tip each. Values are trimmed.
 */
module DebugTrace {
  import opened Wrappers
  import opened Text
  import opened Patterns
  import opened Scan

  /** A traced declaration: its name and its trimmed value. */
  datatype TraceRow = TraceRow(name: string, value: string)

  const Header: string := "[Build] Success\n[Run] Executing Compute() ...\n"
  const Footer: string := "[Run] Finished.\n"
  const MaxTraced: nat := 5

  /** m is one of the matches the declaration scan can return. */
  predicate IsTracedDeclaration(text: string, m: Match) {
    m.start <= |text| && MatchAt(TracedDeclaration, text, m.start) == Some(m)
  }

  /** The groups of a traced declaration: a word for the name and a value free of `;`. */
  predicate HasTracedGroups(text: string, m: Match) {
    |m.groups| == 3
    && (forall k :: 0 <= k < 3 ==> m.groups[k].from <= m.groups[k].to <= |text|)
    && IsDelimitedWord(text, m.groups[1])
    && m.groups[2].from < m.groups[2].to && ';' !in GroupText(text, m.groups[2])
  }

  lemma TracedGroups(text: string, m: Match)
    requires IsTracedDeclaration(text, m)
    ensures HasTracedGroups(text, m)
  {
    var g := m.groups;
    NoSemicolonStretch(text, g[2].from, g[2].to);
  }

  lemma AllTracedGroups(text: string, ms: seq<Match>)
    requires forall k :: 0 <= k < |ms| ==> IsTracedDeclaration(text, ms[k])
    ensures forall k :: 0 <= k < |ms| ==> HasTracedGroups(text, ms[k])
  {
    forall k | 0 <= k < |ms| ensures HasTracedGroups(text, ms[k]) {
      TracedGroups(text, ms[k]);
    }
  }

  /** The row for a match: the second group, and the third group trimmed. */
  function RowOf(text: string, m: Match): (row: TraceRow)
    requires HasTracedGroups(text, m)
    ensures IsWord(row.name) && IsWholeWordAt(text, m.groups[1].from, row.name)
    ensures IsTrimOf(GroupText(text, m.groups[2]), row.value)
    ensures ';' !in row.value
  {
    var name := GroupText(text, m.groups[1]);
    WordStretch(text, m.groups[1].from, m.groups[1].to);
    DelimitedWordIsWhole(text, m.groups[1]);
    var row := TrimmedRow(name, GroupText(text, m.groups[2]));
    assert row.name == name;
    row
  }

  /** A row from a name and an untrimmed value; the value keeps no white space at its ends. */
  function TrimmedRow(name: string, raw: string): (row: TraceRow)
    ensures row.name == name && IsTrimOf(raw, row.value)
    ensures ';' !in raw ==> ';' !in row.value
  {
    var value := Trim(raw);
    assert forall k :: 0 <= k < |value| ==> value[k] in raw;
    TraceRow(name, value)
  }

  /** The rows of the first five declaration matches, in order. */
  function TraceRows(text: string): (rows: seq<TraceRow>)
    ensures var ms := Matches(TracedDeclaration, text);
      |rows| == Min(MaxTraced, |ms|)
      && forall k :: 0 <= k < |rows| ==> IsTracedDeclaration(text, ms[k]) && HasTracedGroups(text, ms[k]) && rows[k] == RowOf(text, ms[k])
  {
    var all := Matches(TracedDeclaration, text);
    var ms := Take(all, MaxTraced);
    assert forall k :: 0 <= k < |ms| ==> ms[k] == all[k];
    assert AllTraced(text, ms);
    var rows := RowsOf(text, ms);
    assert |rows| == Min(MaxTraced, |all|);
    rows
  }

  /** Every element of ms is a traced declaration match of the text. */
  predicate AllTraced(text: string, ms: seq<Match>) {
    forall k :: 0 <= k < |ms| ==> IsTracedDeclaration(text, ms[k])
  }

  /** One row per match, in order. */
  function RowsOf(text: string, ms: seq<Match>): (rows: seq<TraceRow>)
    requires AllTraced(text, ms)
    ensures |rows| == |ms|
    ensures forall k :: 0 <= k < |ms| ==> HasTracedGroups(text, ms[k]) && rows[k] == RowOf(text, ms[k])
  {
    AllTracedGroups(text, ms);
    seq(|ms|, k requires 0 <= k < |ms| => RowOf(text, ms[k]))
  }

  function TraceLine(row: TraceRow): string {
    "[Trace] " + row.name + " = " + row.value + "\n"
  }

  /** The trace lines of the rows, one after the other. */
  function TraceLines(rows: seq<TraceRow>): string {
    if rows == [] then "" else TraceLines(rows[..|rows| - 1]) + TraceLine(rows[|rows| - 1])
  }

  /** The console text of a run. */
  function ConsoleText(rows: seq<TraceRow>): string {
    Header + TraceLines(rows) + Footer
  }

  function TipText(row: TraceRow): string {
    row.name + ": " + row.value
  }

  /** The texts of the debug tips, one per row. */
  function TipTexts(rows: seq<TraceRow>): (tips: seq<string>)
    ensures |tips| == |rows| && forall k :: 0 <= k < |rows| ==> tips[k] == TipText(rows[k])
  {
    seq(|rows|, k requires 0 <= k < |rows| => TipText(rows[k]))
  }

  /** `runDebug()`: the console text and the tips of the first five declarations. */
  method RunDebug(text: string, tipsEnabled: bool) returns (console: string, tips: seq<string>)
    ensures console == ConsoleText(TraceRows(text))
    ensures tips == if tipsEnabled then TipTexts(TraceRows(text)) else []
  {
    console, tips := Report(TraceRows(text), tipsEnabled);
  }

  /** The `forEach` of `runDebug()`: one trace line, and one tip when tips are on, per row. */
  method Report(rows: seq<TraceRow>, tipsEnabled: bool) returns (console: string, tips: seq<string>)
    ensures console == ConsoleText(rows)
    ensures tips == if tipsEnabled then TipTexts(rows) else []
  {
    console := Header;
    tips := [];
    for i := 0 to |rows|
      invariant console == Header + TraceLines(rows[..i])
      invariant tips == if tipsEnabled then TipTexts(rows[..i]) else []
    {
      TraceLinesSnoc(rows, i);
      AppendAssoc(Header, TraceLines(rows[..i]), TraceLine(rows[i]));
      console := console + TraceLine(rows[i]);
      if tipsEnabled {
        tips := tips + [TipText(rows[i])];
      }
    }
    assert rows[..|rows|] == rows;
    console := console + Footer;
  }

  lemma TraceLinesSnoc(rows: seq<TraceRow>, i: nat)
    requires i < |rows|
    ensures TraceLines(rows[..i + 1]) == TraceLines(rows[..i]) + TraceLine(rows[i])
  {
    assert rows[..i + 1][..i] == rows[..i];
  }

  /** The console always opens with the build header and closes with the footer; with no declaration it holds nothing else. */
  lemma ConsoleFrame(text: string)
    ensures StartsWith(ConsoleText(TraceRows(text)), Header)
    ensures EndsWith(ConsoleText(TraceRows(text)), Footer)
    ensures Matches(TracedDeclaration, text) == [] ==> ConsoleText(TraceRows(text)) == Header + Footer
  {
    ConcatEnds(Header, TraceLines(TraceRows(text)), Footer);
  }

  lemma AppendAssoc(a: string, b: string, c: string)
    ensures a + b + c == a + (b + c)
  {
  }

  lemma ConcatEnds(a: string, b: string, c: string)
    ensures StartsWith(a + b + c, a) && EndsWith(a + b + c, c)
  {
    assert (a + b + c)[..|a|] == a;
    assert (a + b + c)[|a + b + c| - |c|..] == c;
  }
}
