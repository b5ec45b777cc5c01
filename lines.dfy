/**
 * Line positions of offsets in the editor text. The editor's lines are the pieces of
 * `text.split('\n')`; the caret line is the zero-based index of the piece holding the caret,
 * and the analyses that report a line use the one-based count `split('\n').length` of the
 * text before an offset.
 */
module LineIndex {
  import opened Wrappers
  import opened Text

  /** `text.substring(0, offset)`: JavaScript clamps an offset past the end to the length. */
  function Before(text: string, offset: nat): (r: string)
    ensures |r| == Min(offset, |text|) && r == text[..|r|]
  {
    text[..Min(offset, |text|)]
  }

  /** `caretLine()`: the zero-based line of the caret, the number of line feeds before it. */
  function CaretLine(text: string, cursor: nat): (line: nat)
    ensures line == CountChar(Before(text, cursor), '\n')
    ensures line < |Split(text)|
  {
    var before := Before(text, cursor);
    PrefixCount(text, |before|);
    |Split(before)| - 1
  }

  /** `text.substring(0, offset).split('\n').length`: the one-based line of an offset. */
  function LineNumber(text: string, offset: nat): (line: nat)
    ensures line == CountChar(Before(text, offset), '\n') + 1
    ensures 1 <= line <= |Split(text)|
  {
    var before := Before(text, offset);
    PrefixCount(text, |before|);
    |Split(before)|
  }

  /** A prefix holds no more line feeds than the whole text. */
  lemma PrefixCount(text: string, n: nat)
    requires n <= |text|
    ensures CountChar(text[..n], '\n') <= CountChar(text, '\n')
  {
    assert text == text[..n] + text[n..];
    CountCharAppend(text[..n], text[n..], '\n');
  }

  /** Moving the caret forward never moves it to an earlier line. */
  lemma {:induction false} CaretLineMonotone(text: string, c1: nat, c2: nat)
    requires c1 <= c2
    ensures CaretLine(text, c1) <= CaretLine(text, c2)
  {
    var b1 := Before(text, c1);
    var b2 := Before(text, c2);
    assert b2 == b1 + b2[|b1|..];
    CountCharAppend(b1, b2[|b1|..], '\n');
  }
}
