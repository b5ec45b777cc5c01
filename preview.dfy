/**
 * The logic preview: the editor's lines, optionally without the structural lines (those
 * whose trimmed text begins with `using`, `namespace`, `{` or `}`), optionally with long
 * comments collapsed to their first twelve characters, joined again with line feeds.
 */
module LogicPreview {
  import opened Wrappers
  import opened Text

  /** The marker appended to a collapsed comment; the ellipsis is spelled as the script's source spells it. */
  const CollapsedSuffix: string := " \U{00E2}\U{20AC}\U{00A6} (hover in full editor)"

  /** `/^(using|namespace|{|})/` on the trimmed line. There is no `\b`: `usings` is structural too. */
  predicate IsStructural(line: string) {
    var t := Trim(line);
    StartsWith(t, "using") || StartsWith(t, "namespace") || StartsWith(t, "{") || StartsWith(t, "}")
  }

  /** The test the logic-only filter keeps a line by. */
  predicate IsLogicLine(line: string) {
    !IsStructural(line)
  }

  /** The logic-only filter: the lines that are not structural, in order. */
  function LogicLines(lines: seq<string>): (r: seq<string>)
    ensures |r| <= |lines|
    ensures forall line :: line in r <==> line in lines && !IsStructural(line)
  {
    Filter(lines, IsLogicLine)
  }

  /** The filter of one line: nothing for a structural line, the line itself otherwise. */
  lemma LogicLinesSingle(line: string)
    ensures LogicLines([line]) == if IsStructural(line) then [] else [line]
  {
    FilterSingle(line, IsLogicLine);
  }

  /**
   * The filter works line by line: filtering two runs of lines one after the other is filtering
   * each. With LogicLinesSingle this fixes the result, order and repeats included.
   */
  lemma LogicLinesAppend(a: seq<string>, b: seq<string>)
    ensures LogicLines(a + b) == LogicLines(a) + LogicLines(b)
  {
    FilterAppend(a, b, IsLogicLine);
  }

  /** Filtering twice removes nothing more. */
  lemma LogicLinesIdempotent(lines: seq<string>)
    ensures LogicLines(LogicLines(lines)) == LogicLines(lines)
  {
    FilterIdempotent(lines, IsLogicLine);
  }

  /** The filter gives back the lines unchanged exactly when none of them is structural. */
  lemma LogicLinesKeepsAll(lines: seq<string>)
    ensures LogicLines(lines) == lines <==> forall k :: 0 <= k < |lines| ==> !IsStructural(lines[k])
  {
    if forall k :: 0 <= k < |lines| ==> !IsStructural(lines[k]) {
      assert forall k :: 0 <= k < |lines| ==> IsLogicLine(lines[k]);
      FilterKeepsAll(lines, IsLogicLine);
    }
  }

  /**
   * The comment test: the trimmed line starts with `///`, or it starts with `//` and the
   * untrimmed line is longer than 28 characters (`&&` binds tighter than `||`).
   */
  predicate IsLongComment(line: string) {
    var t := Trim(line);
    StartsWith(t, "///") || (StartsWith(t, "//") && |line| > 28)
  }

  /** One line of the comment filter: `line.slice(0, 12)` and the marker, or the line itself. */
  function Collapse(line: string): (r: string)
    ensures IsLongComment(line) ==>
      StartsWith(r, Take(line, 12)) && EndsWith(r, CollapsedSuffix) && |r| == |Take(line, 12)| + |CollapsedSuffix|
    ensures !IsLongComment(line) ==> r == line
    ensures '\n' !in line ==> '\n' !in r
  {
    if IsLongComment(line) then
      var head := Take(line, 12);
      var r := head + CollapsedSuffix;
      SuffixHasNoLineFeed();
      assert r[..|head|] == head;
      assert r[|r| - |CollapsedSuffix|..] == CollapsedSuffix;
      r
    else line
  }

  lemma SuffixHasNoLineFeed()
    ensures forall k :: 0 <= k < |CollapsedSuffix| ==> CollapsedSuffix[k] != '\n'
  {
  }

  /** The comment filter over all lines. */
  function CollapseComments(lines: seq<string>): (r: seq<string>)
    ensures |r| == |lines|
    ensures forall k :: 0 <= k < |r| ==> r[k] == Collapse(lines[k])
  {
    seq(|lines|, k requires 0 <= k < |lines| => Collapse(lines[k]))
  }

  /** The lines the logic-only switch keeps: all of them, or the non-structural ones. */
  function KeptLines(lines: seq<string>, logicOnly: bool): (kept: seq<string>)
    ensures forall k :: 0 <= k < |kept| ==> kept[k] in lines
    ensures logicOnly ==> kept == LogicLines(lines) && forall k :: 0 <= k < |kept| ==> !IsStructural(kept[k])
    ensures !logicOnly ==> kept == lines
  {
    if logicOnly then
      var r := LogicLines(lines);
      assert forall k :: 0 <= k < |r| ==> r[k] in r;
      r
    else lines
  }

  /** Collapsing comments keeps every line free of line feeds. */
  lemma CollapseKeepsLines(kept: seq<string>)
    requires forall k :: 0 <= k < |kept| ==> '\n' !in kept[k]
    ensures forall k :: 0 <= k < |kept| ==> '\n' !in CollapseComments(kept)[k]
  {
    forall k | 0 <= k < |kept| ensures '\n' !in CollapseComments(kept)[k] {
      assert '\n' !in Collapse(kept[k]);
    }
  }

  /** The lines the preview shows under the two switches. */
  function VisibleLines(text: string, logicOnly: bool, commentFilter: bool): (v: seq<string>)
    ensures forall k :: 0 <= k < |v| ==> '\n' !in v[k]
    ensures !commentFilter ==> forall k :: 0 <= k < |v| ==> v[k] in Split(text)
    ensures logicOnly && !commentFilter ==> forall k :: 0 <= k < |v| ==> !IsStructural(v[k])
    ensures !logicOnly ==> |v| == |Split(text)|
    ensures commentFilter ==> v == CollapseComments(KeptLines(Split(text), logicOnly))
    ensures !commentFilter ==> v == KeptLines(Split(text), logicOnly)
  {
    var lines := Split(text);
    var kept := KeptLines(lines, logicOnly);
    KeptHasNoLineFeeds(lines, kept);
    if commentFilter then
      CollapseKeepsLines(kept);
      CollapseComments(kept)
    else kept
  }

  lemma KeptHasNoLineFeeds(lines: seq<string>, kept: seq<string>)
    requires forall k :: 0 <= k < |lines| ==> '\n' !in lines[k]
    requires forall k :: 0 <= k < |kept| ==> kept[k] in lines
    ensures forall k :: 0 <= k < |kept| ==> '\n' !in kept[k]
  {
  }

  /** `logicOnlyTransform()`: the preview text. */
  function Preview(text: string, logicOnly: bool, commentFilter: bool): string {
    Join(VisibleLines(text, logicOnly, commentFilter))
  }

  /** With both switches off the preview is the text itself. */
  lemma PreviewOff(text: string)
    ensures Preview(text, false, false) == text
  {
    JoinSplit(text);
  }

  /** The preview's own lines are the visible lines, unless every line was filtered out. */
  lemma PreviewLines(text: string, logicOnly: bool, commentFilter: bool)
    requires VisibleLines(text, logicOnly, commentFilter) != []
    ensures Split(Preview(text, logicOnly, commentFilter)) == VisibleLines(text, logicOnly, commentFilter)
  {
    SplitJoin(VisibleLines(text, logicOnly, commentFilter));
  }
}
