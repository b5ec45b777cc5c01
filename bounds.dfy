/**
 * The function that contains the caret, as contextual dimming finds it: scan upwards from
 * the caret line for a signature line, then downwards from there, keeping a running count
 * of `{` minus `}`, to the first later line where the count is back to zero.
 */
module FunctionBounds {
  import opened Text
  import opened Patterns
  import opened Wrappers
  import opened LineIndex

  const Modifiers: seq<string> := ["public", "private", "internal", "protected"]

  /**
   * `.*\(.*\)` from j: a `(` and a later `)` within the part of the line that `.` reaches
   * from j. Taking the first `(` leaves the most room for the `)`.
   */
  predicate ParenPairFrom(line: string, j: nat)
    requires j <= |line|
  {
    var reach := RunEnd(line, j, LineChars);
    var p := IndexOf(line, '(', j);
    p < reach && IndexOf(line, ')', p + 1) < reach
  }

  /** The first-`(` test is the same as asking for any `(` followed by a `)` within reach. */
  lemma ParenPairFromIff(line: string, j: nat)
    requires j <= |line|
    ensures ParenPairFrom(line, j) <==>
      exists p, q | j <= p < q < RunEnd(line, j, LineChars) :: line[p] == '(' && line[q] == ')'
  {
    var reach := RunEnd(line, j, LineChars);
    var p := IndexOf(line, '(', j);
    if ParenPairFrom(line, j) {
      var q := IndexOf(line, ')', p + 1);
      assert j <= p < q < reach && line[p] == '(' && line[q] == ')';
    }
  }

  /** No two modifiers occur at the same position: they differ in one of their first three letters. */
  lemma ModifiersExclusive(line: string, i: nat, m1: string, m2: string)
    requires m1 in Modifiers && m2 in Modifiers && HasAt(line, i, m1) && HasAt(line, i, m2)
    ensures m1 == m2
  {
    assert line[i] == m1[0] == m2[0];
    assert line[i + 1] == m1[1] == m2[1];
    assert line[i + 2] == m1[2] == m2[2];
  }

  /**
   * `\b(public|private|internal|protected)\b.*\(.*\)` matches at position i. The engine
   * would try the other modifiers if the rest failed after one, but at most one of them
   * occurs at i (ModifiersExclusive).
   */
  predicate SignatureAt(line: string, i: nat)
    requires i <= |line|
  {
    IsWordBoundary(line, i)
    && match BoundedLiteralAt(line, i, Modifiers)
       case None => false
       case Some(m) => ParenPairFrom(line, i + |m|)
  }

  /** The match at i as a plain existence: some modifier, bounded as a word, followed by a parenthesis pair. */
  lemma SignatureAtIff(line: string, i: nat)
    requires i <= |line|
    ensures SignatureAt(line, i) <==> IsWordBoundary(line, i) && exists m | m in Modifiers ::
      HasAt(line, i, m) && IsWordBoundary(line, i + |m|) && ParenPairFrom(line, i + |m|)
  {
    if SignatureAt(line, i) {
      SignatureGivesWitness(line, i);
    }
    if IsWordBoundary(line, i) && exists m | m in Modifiers ::
      HasAt(line, i, m) && IsWordBoundary(line, i + |m|) && ParenPairFrom(line, i + |m|)
    {
      var m :| m in Modifiers && HasAt(line, i, m) && IsWordBoundary(line, i + |m|) && ParenPairFrom(line, i + |m|);
      SignatureWitness(line, i, m);
    }
  }

  lemma SignatureGivesWitness(line: string, i: nat)
    requires i <= |line| && SignatureAt(line, i)
    ensures exists m | m in Modifiers ::
      HasAt(line, i, m) && IsWordBoundary(line, i + |m|) && ParenPairFrom(line, i + |m|)
  {
    var m := BoundedLiteralAt(line, i, Modifiers).value;
    assert m in Modifiers && HasAt(line, i, m) && IsWordBoundary(line, i + |m|) && ParenPairFrom(line, i + |m|);
  }

  /** A modifier bounded as a word and followed by a parenthesis pair is the one the engine takes. */
  lemma SignatureWitness(line: string, i: nat, m: string)
    requires i <= |line| && m in Modifiers && HasAt(line, i, m) && IsWordBoundary(line, i + |m|)
    requires ParenPairFrom(line, i + |m|) && IsWordBoundary(line, i)
    ensures SignatureAt(line, i)
  {
    var r := BoundedLiteralAt(line, i, Modifiers);
    assert r.Some?;
    ModifiersExclusive(line, i, m, r.value);
  }

  /** The pattern matches at i or at some later position of the line. */
  predicate SignatureFrom(line: string, i: nat)
    requires i <= |line|
    decreases |line| - i
  {
    i < |line| && (SignatureAt(line, i) || SignatureFrom(line, i + 1))
  }

  /** The signature test of the scan: the pattern matches somewhere in the line. */
  predicate IsSignatureLine(line: string) {
    SignatureFrom(line, 0)
  }

  /** The test holds exactly when the pattern matches at some position of the line. */
  lemma {:induction false} SignatureFromIff(line: string, i: nat)
    requires i <= |line|
    ensures SignatureFrom(line, i) <==> exists k | i <= k < |line| :: SignatureAt(line, k)
    decreases |line| - i
  {
    if i < |line| {
      SignatureFromIff(line, i + 1);
    }
  }

  /** The count of `{` minus the count of `}` on one line. */
  function Net(line: string): int {
    CountChar(line, '{') - CountChar(line, '}')
  }

  /** The running brace count after the lines start .. k-1. */
  function Balance(lines: seq<string>, start: nat, k: nat): int
    requires start <= k <= |lines|
    decreases k - start
  {
    if k == start then 0 else Balance(lines, start, k - 1) + Net(lines[k - 1])
  }

  /** The running count is back to zero after line j. */
  predicate ClosesAt(lines: seq<string>, start: nat, j: nat)
    requires start <= j < |lines|
  {
    Balance(lines, start, j + 1) == 0
  }

  /** start is the nearest signature line at or above the caret line, or 0 when there is none. */
  predicate IsSignatureStart(lines: seq<string>, currentLine: int, start: int) {
    0 <= start
    && (start > 0 ==> start <= currentLine && start < |lines| && IsSignatureLine(lines[start]))
    && (forall i :: start < i <= currentLine && i < |lines| ==> !IsSignatureLine(lines[i]))
  }

  /** end is the first line after start where the count returns to zero, or the last line when none does. */
  predicate IsBlockEnd(lines: seq<string>, start: nat, end: int) {
    end < |lines|
    && (end == |lines| - 1 || (start < end && ClosesAt(lines, start, end)))
    && (forall j :: start < j < end ==> !ClosesAt(lines, start, j))
  }

  /** `findFunctionBounds(lines, currentLine)`. */
  method FindFunctionBounds(lines: seq<string>, currentLine: int) returns (start: int, end: int)
    ensures IsSignatureStart(lines, currentLine, start)
    ensures |lines| > 0 ==> start < |lines|
    ensures IsBlockEnd(lines, start, end)
    ensures |lines| > 0 ==> start <= end
  {
    start := SignatureScan(lines, currentLine);
    end := BraceScan(lines, start);
  }

  /** The first loop of `findFunctionBounds`: upwards from the caret line to a signature line. */
  method SignatureScan(lines: seq<string>, currentLine: int) returns (start: nat)
    ensures IsSignatureStart(lines, currentLine, start)
    ensures start <= |lines| && (|lines| > 0 ==> start < |lines|)
  {
    start := 0;
    var i := currentLine;
    while i >= 0
      invariant i <= currentLine
      invariant forall k :: i < k <= currentLine && 0 <= k < |lines| ==> !IsSignatureLine(lines[k])
      decreases i + 1
    {
      if i < |lines| && IsSignatureLine(lines[i]) {
        start := i;
        break;
      }
      i := i - 1;
    }
  }

  /** The second loop of `findFunctionBounds`: downwards from start to the line that closes the block. */
  method BraceScan(lines: seq<string>, start: nat) returns (end: int)
    requires start <= |lines|
    ensures IsBlockEnd(lines, start, end)
    ensures |lines| > 0 && start < |lines| ==> start <= end
  {
    var braces: int := 0;
    end := |lines| - 1;
    var j := start;
    while j < |lines|
      invariant start <= j <= |lines|
      invariant braces == Balance(lines, start, j)
      invariant forall k :: start < k < j ==> !ClosesAt(lines, start, k)
      invariant end == |lines| - 1
    {
      var opens := CountChar(lines[j], '{');
      var closes := CountChar(lines[j], '}');
      assert Balance(lines, start, j + 1) == Balance(lines, start, j) + opens - closes;
      braces := braces + opens;
      braces := braces - closes;
      if j > start && braces == 0 {
        end := j;
        break;
      }
      j := j + 1;
    }
  }

  /** The signature scan has exactly one possible outcome. */
  lemma SignatureStartUnique(lines: seq<string>, currentLine: int, s1: int, s2: int)
    requires IsSignatureStart(lines, currentLine, s1) && IsSignatureStart(lines, currentLine, s2)
    ensures s1 == s2
  {
  }

  /** The brace scan has exactly one possible outcome. */
  lemma BlockEndUnique(lines: seq<string>, start: nat, e1: int, e2: int)
    requires IsBlockEnd(lines, start, e1) && IsBlockEnd(lines, start, e2)
    ensures e1 == e2
  {
  }

  /** A block that opens and closes on the same signature line does not end there: the scan only stops on a later line. */
  lemma EndAfterStart(lines: seq<string>, start: nat, end: int)
    requires start < |lines| - 1 && IsBlockEnd(lines, start, end)
    ensures start < end
  {
  }

  /** The height of one editor line, in pixels. */
  const LineHeight: real := 21.6

  /**
   * The focus band of `applyContextualDimming()`, in percent of the editor's height: from the
   * top of the start line to the bottom of the end line. The line height cancels out, so
   * the band is the lines' share of the text, and it always lies within the editor.
   */
  function FocusBand(start: nat, end: nat, lineCount: nat): (band: (real, real))
    requires start <= end < lineCount
    ensures 0.0 <= band.0 < band.1 <= 100.0
    ensures band.0 == (start as real) * 100.0 / (lineCount as real)
    ensures band.1 == ((end + 1) as real) * 100.0 / (lineCount as real)
  {
    var total := (lineCount as real) * LineHeight;
    var top := ((start as real) * LineHeight) / total * 100.0;
    var bottom := (((end + 1) as real) * LineHeight) / total * 100.0;
    BandCancels(start as real, lineCount as real);
    BandCancels((end + 1) as real, lineCount as real);
    BandWithin(start as real, (end + 1) as real, lineCount as real);
    (top, bottom)
  }

  /** The line height cancels: (k * h) / (n * h) * 100 = k * 100 / n. */
  lemma BandCancels(k: real, n: real)
    requires n > 0.0
    ensures (k * LineHeight) / (n * LineHeight) * 100.0 == k * 100.0 / n
  {
    var q := k / n;
    assert k == q * n;
    assert (k * LineHeight) == q * (n * LineHeight);
  }

  lemma BandWithin(a: real, b: real, n: real)
    requires 0.0 <= a < b <= n && n > 0.0
    ensures 0.0 <= a * 100.0 / n < b * 100.0 / n <= 100.0
  {
    var qa := a * 100.0 / n;
    var qb := b * 100.0 / n;
    assert qa * n == a * 100.0;
    assert qb * n == b * 100.0;
  }

  /**
   * `applyContextualDimming()` with the toggle on: the bounds of the function around the
   * caret's line in the editor's text, and the focus band they give. The text always has at
   * least one line, so the band is never empty.
   */
  method ContextualDimming(text: string, cursor: nat) returns (start: int, end: int, band: (real, real))
    ensures var lines := Split(text);
      IsSignatureStart(lines, CaretLine(text, cursor), start) && IsBlockEnd(lines, start, end)
      && 0 <= start <= CaretLine(text, cursor) && start <= end < |lines|
    ensures 0.0 <= band.0 < band.1 <= 100.0
    ensures band.0 == (start as real) * 100.0 / (|Split(text)| as real)
    ensures band.1 == ((end + 1) as real) * 100.0 / (|Split(text)| as real)
  {
    var lines := Split(text);
    var current := CaretLine(text, cursor);
    start, end := FindFunctionBounds(lines, current);
    band := FocusBand(start, end, |lines|);
  }
}
