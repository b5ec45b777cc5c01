/**
 * Whole-word occurrences of an identifier: the global scan of `\b<name>\b` that the
 * declaration tracer and the heatmap build with `new RegExp`.
 */
module WholeWords {
  import opened Wrappers
  import opened Text
  import opened Patterns
  import opened Scan

  /** `[...text.matchAll(new RegExp('\\b' + name + '\\b', 'g'))]`, as match records. */
  function Occurrences(text: string, name: string): (ms: seq<Match>)
    ensures forall k :: 0 <= k < |ms| ==> name != [] && IsWholeWordAt(text, ms[k].start, name)
    ensures forall k :: 0 <= k < |ms| ==> ms[k].end == ms[k].start + |name|
    ensures forall k :: 0 < k < |ms| ==> ms[k - 1].start < ms[k].start
  {
    var a := Attempts(WholeWord(name), text);
    AttemptsIsTable(WholeWord(name), text);
    var ms := MatchAll(a, 0);
    assert forall k :: 0 <= k < |ms| ==> a[ms[k].start] == Some(ms[k]);
    ms
  }

  /** Every whole-word occurrence of a word is found: two occurrences of a word cannot overlap. */
  lemma OccurrencesComplete(text: string, name: string, i: nat)
    requires IsWord(name) && IsWholeWordAt(text, i, name)
    ensures exists k :: 0 <= k < |Occurrences(text, name)| && Occurrences(text, name)[k].start == i
  {
    var a := Attempts(WholeWord(name), text);
    AttemptsIsTable(WholeWord(name), text);
    assert a[i] == WholeWordAt(text, i, name);
    MatchAllCovers(a, 0, i);
    var ms := Occurrences(text, name);
    var k :| 0 <= k < |ms| && ms[k].start <= i < ms[k].end;
    var j := ms[k].start;
    if j < i {
      InsideWord(text, name, j, i);
    }
    assert j == i;
  }

  /** Strictly inside an occurrence of a word there is no word boundary. */
  lemma InsideWord(text: string, name: string, j: nat, i: nat)
    requires IsWord(name) && HasAt(text, j, name) && j < i < j + |name|
    ensures !IsWordBoundary(text, i)
  {
    assert text[i - 1] == name[i - 1 - j] && text[i] == name[i - j];
  }

  /** A name occurs at a position exactly when one of the scan's matches starts there. */
  lemma OccurrencesExact(text: string, name: string, i: nat)
    requires IsWord(name)
    ensures IsWholeWordAt(text, i, name) <==>
      exists k :: 0 <= k < |Occurrences(text, name)| && Occurrences(text, name)[k].start == i
  {
    if IsWholeWordAt(text, i, name) {
      OccurrencesComplete(text, name, i);
    }
  }
}
