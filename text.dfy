/**
 * Characters and strings as the editor script sees them: the character classes of
 * JavaScript regular expressions, greedy runs of one class, literal tests, `split('\n')`,
 * `join('\n')`, `trim()` and ASCII lower-casing.
 */
module Text {

  /** `\w`: ASCII letters, digits and underscore. */
  predicate IsWordChar(c: char) {
    ('a' <= c <= 'z') || ('A' <= c <= 'Z') || ('0' <= c <= '9') || c == '_'
  }

  /** The line terminators of ECMAScript: the characters `.` does not match. */
  predicate IsLineTerminator(c: char) {
    c == '\n' || c == '\r' || c == '\U{2028}' || c == '\U{2029}'
  }

  /** `\s`, and what `trim()` removes: ECMAScript white space and line terminators. */
  predicate IsSpace(c: char) {
    c == '\t' || c == '\U{000B}' || c == '\U{000C}' || c == ' ' || c == '\U{00A0}'
    || c == '\U{1680}' || ('\U{2000}' <= c <= '\U{200A}') || c == '\U{202F}'
    || c == '\U{205F}' || c == '\U{3000}' || c == '\U{FEFF}' || IsLineTerminator(c)
  }

  /** A non-empty string of `\w` characters, the shape of every captured identifier. */
  predicate IsWord(w: string) {
    w != [] && forall k :: 0 <= k < |w| ==> IsWordChar(w[k])
  }

  /** `\b` at position i: exactly one of the characters around i is a word character. */
  predicate IsWordBoundary(s: string, i: nat) {
    (0 < i <= |s| && IsWordChar(s[i - 1])) != (i < |s| && IsWordChar(s[i]))
  }

  /** The character classes that the patterns repeat greedily. */
  datatype CharClass =
    | WordChars     // \w
    | SpaceChars    // \s
    | LineChars     // .   (anything but a line terminator)
    | NonSemicolon  // [^;]

  predicate InClass(c: char, k: CharClass) {
    match k
    case WordChars => IsWordChar(c)
    case SpaceChars => IsSpace(c)
    case LineChars => !IsLineTerminator(c)
    case NonSemicolon => c != ';'
  }

  /** Every character of s in [i, j) belongs to class k. */
  predicate AllInClass(s: string, i: nat, j: nat, k: CharClass)
    requires i <= j <= |s|
    decreases j - i
  {
    i == j || (InClass(s[i], k) && AllInClass(s, i + 1, j, k))
  }

  lemma {:induction false} AllInClassAt(s: string, i: nat, j: nat, k: CharClass, m: nat)
    requires i <= m < j <= |s| && AllInClass(s, i, j, k)
    ensures InClass(s[m], k)
    decreases m - i
  {
    if m > i {
      AllInClassAt(s, i + 1, j, k, m);
    }
  }

  /** Two adjacent stretches of class k make one. */
  lemma {:induction false} AllInClassAppend(s: string, i: nat, j: nat, l: nat, k: CharClass)
    requires i <= j <= l <= |s| && AllInClass(s, i, j, k) && AllInClass(s, j, l, k)
    ensures AllInClass(s, i, l, k)
    decreases j - i
  {
    if i < j {
      AllInClassAppend(s, i + 1, j, l, k);
    }
  }

  /** A stretch of class k, cut short, is still of class k. */
  lemma {:induction false} AllInClassPrefix(s: string, i: nat, j: nat, l: nat, k: CharClass)
    requires i <= j <= l <= |s| && AllInClass(s, i, l, k)
    ensures AllInClass(s, i, j, k)
    decreases j - i
  {
    if i < j {
      AllInClassPrefix(s, i + 1, j, l, k);
    }
  }

  /** A stretch whose every character is of class k. */
  lemma {:induction false} AllInClassIntro(s: string, i: nat, j: nat, k: CharClass)
    requires i <= j <= |s| && forall m :: i <= m < j ==> InClass(s[m], k)
    ensures AllInClass(s, i, j, k)
    decreases j - i
  {
    if i < j {
      AllInClassIntro(s, i + 1, j, k);
    }
  }

  /** End of the longest run of class k starting at i: where a greedy `k*` stops. */
  function RunEnd(s: string, i: nat, k: CharClass): (j: nat)
    requires i <= |s|
    ensures i <= j <= |s|
    ensures j == |s| || !InClass(s[j], k)
    decreases |s| - i
  {
    if i < |s| && InClass(s[i], k) then RunEnd(s, i + 1, k) else i
  }

  /**
   * Every character the run passes over belongs to k. This is a lemma rather than a
   * postcondition of RunEnd so that it is brought in only where a proof needs it.
   */
  lemma {:induction false} RunEndIsRun(s: string, i: nat, k: CharClass)
    requires i <= |s|
    ensures AllInClass(s, i, RunEnd(s, i, k), k)
    decreases |s| - i
  {
    if i < |s| && InClass(s[i], k) {
      RunEndIsRun(s, i + 1, k);
    }
  }

  /** A run of class k that stops at b, before the end or a character outside k, is the run a greedy `k*` from i takes. */
  lemma {:induction false} RunEndAt(s: string, i: nat, b: nat, k: CharClass)
    requires i <= b <= |s| && AllInClass(s, i, b, k) && (b == |s| || !InClass(s[b], k))
    ensures RunEnd(s, i, k) == b
    decreases b - i
  {
    if i < b {
      RunEndAt(s, i + 1, b, k);
    }
  }

  /** No word character is white space. */
  lemma WordCharIsNotSpace(c: char)
    ensures IsWordChar(c) ==> !IsSpace(c)
  {
  }

  /** A non-empty stretch of word characters is a word. */
  lemma WordStretch(s: string, i: nat, j: nat)
    requires i < j <= |s| && AllInClass(s, i, j, WordChars)
    ensures IsWord(s[i..j])
  {
    forall m | 0 <= m < j - i ensures IsWordChar(s[i..j][m]) {
      AllInClassAt(s, i, j, WordChars, i + m);
    }
  }

  /** A stretch of `[^;]` characters holds no semicolon. */
  lemma NoSemicolonStretch(s: string, i: nat, j: nat)
    requires i <= j <= |s| && AllInClass(s, i, j, NonSemicolon)
    ensures ';' !in s[i..j]
  {
    forall m | 0 <= m < j - i ensures s[i..j][m] != ';' {
      AllInClassAt(s, i, j, NonSemicolon, i + m);
    }
  }

  /** The character just before the end of a non-empty run belongs to the run's class. */
  lemma RunLast(s: string, i: nat, k: CharClass)
    requires i <= |s|
    ensures RunEnd(s, i, k) > i ==> InClass(s[RunEnd(s, i, k) - 1], k)
  {
    var j := RunEnd(s, i, k);
    RunEndIsRun(s, i, k);
    if j > i {
      AllInClassAt(s, i, j, k, j - 1);
    }
  }

  /** The literal `lit` occurs in s at position i. */
  predicate HasAt(s: string, i: nat, lit: string) {
    i + |lit| <= |s| && s[i..i + |lit|] == lit
  }

  /** Each character of an occurrence is the literal's character. */
  lemma HasAtChar(s: string, i: nat, lit: string, k: nat)
    requires HasAt(s, i, lit) && k < |lit|
    ensures s[i + k] == lit[k]
  {
    assert s[i..i + |lit|][k] == s[i + k];
  }

  predicate StartsWith(s: string, prefix: string) {
    |prefix| <= |s| && s[..|prefix|] == prefix
  }

  predicate EndsWith(s: string, suffix: string) {
    |suffix| <= |s| && s[|s| - |suffix|..] == suffix
  }

  /** `s.includes(sub)`. */
  predicate Contains(s: string, sub: string) {
    exists i | 0 <= i <= |s| - |sub| :: HasAt(s, i, sub)
  }

  /** Number of occurrences of c in s. */
  function CountChar(s: string, c: char): nat {
    if s == [] then 0 else (if s[0] == c then 1 else 0) + CountChar(s[1..], c)
  }

  lemma {:induction false} CountCharAppend(a: string, b: string, c: char)
    ensures CountChar(a + b, c) == CountChar(a, c) + CountChar(b, c)
  {
    if a == [] {
      assert a + b == b;
    } else {
      assert (a + b)[1..] == a[1..] + b;
      CountCharAppend(a[1..], b, c);
    }
  }

  lemma CountCharAbsent(s: string, c: char)
    requires c !in s
    ensures CountChar(s, c) == 0
  {
    if s != [] {
      assert s[0] != c;
      assert forall k :: 0 <= k < |s| - 1 ==> s[1..][k] == s[k + 1];
      CountCharAbsent(s[1..], c);
    }
  }

  /** First position at or after i holding c, or |s| when there is none. */
  function IndexOf(s: string, c: char, i: nat): (j: nat)
    requires i <= |s|
    ensures i <= j <= |s|
    ensures j < |s| ==> s[j] == c
    ensures forall m :: i <= m < j ==> s[m] != c
    decreases |s| - i
  {
    if i == |s| || s[i] == c then i else IndexOf(s, c, i + 1)
  }

  /** `s.split('\n')`: the pieces between line feeds, always at least one. */
  function Split(s: string): (lines: seq<string>)
    ensures |lines| == CountChar(s, '\n') + 1
    ensures forall k :: 0 <= k < |lines| ==> '\n' !in lines[k]
    decreases |s|
  {
    var j := IndexOf(s, '\n', 0);
    if j == |s| then
      CountCharAbsent(s, '\n');
      [s]
    else
      CountAfterLineFeed(s, j);
      [s[..j]] + Split(s[j + 1..])
  }

  /** The first line feed accounts for one of the line feeds; the rest lie after it. */
  lemma CountAfterLineFeed(s: string, j: nat)
    requires j == IndexOf(s, '\n', 0) < |s|
    ensures CountChar(s, '\n') == CountChar(s[j + 1..], '\n') + 1
  {
    assert s == s[..j] + [s[j]] + s[j + 1..];
    CountCharAppend(s[..j] + [s[j]], s[j + 1..], '\n');
    CountCharAppend(s[..j], [s[j]], '\n');
    CountCharAbsent(s[..j], '\n');
  }

  /** `lines.join('\n')`. */
  function Join(lines: seq<string>): string {
    if lines == [] then ""
    else if |lines| == 1 then lines[0]
    else lines[0] + "\n" + Join(lines[1..])
  }

  /** Splitting and joining again gives back the text. */
  lemma {:induction false} JoinSplit(s: string)
    ensures Join(Split(s)) == s
    decreases |s|
  {
    var j := IndexOf(s, '\n', 0);
    if j < |s| {
      JoinSplit(s[j + 1..]);
      assert s == s[..j] + "\n" + s[j + 1..];
    }
  }

  /** Joining lines free of line feeds and splitting again gives back the lines. */
  lemma {:induction false} SplitJoin(lines: seq<string>)
    requires lines != []
    requires forall k :: 0 <= k < |lines| ==> '\n' !in lines[k]
    ensures Split(Join(lines)) == lines
    decreases |lines|
  {
    var s := Join(lines);
    if |lines| == 1 {
      assert IndexOf(s, '\n', 0) == |s|;
    } else {
      var rest := Join(lines[1..]);
      assert s == lines[0] + "\n" + rest;
      var j := IndexOf(s, '\n', 0);
      assert j == |lines[0]| by {
        assert s[|lines[0]|] == '\n';
        forall m | 0 <= m < |lines[0]| ensures s[m] != '\n' {
          assert s[m] == lines[0][m];
        }
      }
      assert s[..j] == lines[0];
      assert s[j + 1..] == rest;
      SplitJoin(lines[1..]);
    }
  }

  /** The text after the last line feed of s: all of s when it has none. */
  function LastLine(s: string): (r: string)
    ensures |r| <= |s| && r == s[|s| - |r|..]
    ensures '\n' !in r
    ensures |r| == |s| || s[|s| - |r| - 1] == '\n'
    decreases |s|
  {
    var j := IndexOf(s, '\n', 0);
    if j == |s| then s
    else
      var t := s[j + 1..];
      var r := LastLine(t);
      assert s[|s| - |r|..] == t[|t| - |r|..];
      assert |r| == |t| || s[|s| - |r| - 1] == t[|t| - |r| - 1];
      r
  }

  /** The last line is the last piece that `split('\n')` returns. */
  lemma {:induction false} LastLineOfSplit(s: string)
    ensures Split(s)[|Split(s)| - 1] == LastLine(s)
    decreases |s|
  {
    var j := IndexOf(s, '\n', 0);
    if j < |s| {
      var t := s[j + 1..];
      LastLineOfSplit(t);
      SplitAtFirstLineFeed(s, j);
      LastLineAtFirstLineFeed(s, j);
      var rest := Split(t);
      assert ([s[..j]] + rest)[|rest|] == rest[|rest| - 1];
    } else {
      assert Split(s) == [s] && LastLine(s) == s;
    }
  }

  /** Split continues after the first line feed. */
  lemma SplitAtFirstLineFeed(s: string, j: nat)
    requires j == IndexOf(s, '\n', 0) < |s|
    ensures Split(s) == [s[..j]] + Split(s[j + 1..])
  {
    assert j != |s|;
  }

  /** LastLine continues after the first line feed. */
  lemma LastLineAtFirstLineFeed(s: string, j: nat)
    requires j == IndexOf(s, '\n', 0) < |s|
    ensures LastLine(s) == LastLine(s[j + 1..])
  {
  }

  /** `trimStart()`. */
  function TrimStart(s: string): (r: string)
    ensures |r| <= |s| && r == s[|s| - |r|..]
    ensures forall k :: 0 <= k < |s| - |r| ==> IsSpace(s[k])
    ensures r == [] || !IsSpace(r[0])
  {
    if s != [] && IsSpace(s[0]) then TrimStart(s[1..]) else s
  }

  /** `trimEnd()`. */
  function TrimEnd(s: string): (r: string)
    ensures |r| <= |s| && r == s[..|r|]
    ensures forall k :: |r| <= k < |s| ==> IsSpace(s[k])
    ensures r == [] || !IsSpace(r[|r| - 1])
  {
    if s != [] && IsSpace(s[|s| - 1]) then TrimEnd(s[..|s| - 1]) else s
  }

  /** Neither end of r is white space or a line terminator. */
  predicate IsTrimmed(r: string) {
    r == [] || (!IsSpace(r[0]) && !IsSpace(r[|r| - 1]))
  }

  /** `trim()`: the text without white space or line terminators at either end, and nothing more removed (IsTrimOf). */
  function Trim(s: string): (r: string)
    ensures IsTrimOf(s, r)
  {
    TrimEndOfTrimStart(s);
    TrimEnd(TrimStart(s))
  }

  /**
   * r is s without the white space at its ends: s is p + r + q where p and q hold only white
   * space and line terminators, and r neither starts nor ends with one.
   */
  predicate IsTrimOf(s: string, r: string) {
    |r| <= |s| && IsTrimmed(r)
    && exists p | 0 <= p <= |s| - |r| ::
      s[p..p + |r|] == r && AllInClass(s, 0, p, SpaceChars) && AllInClass(s, p + |r|, |s|, SpaceChars)
  }

  /** A trim of s occurs in s, is trimmed, and takes its characters from s. */
  lemma TrimOfFacts(s: string, r: string)
    requires IsTrimOf(s, r)
    ensures Contains(s, r) && IsTrimmed(r)
    ensures forall k :: 0 <= k < |r| ==> r[k] in s
  {
    var p :| 0 <= p <= |s| - |r| &&
      s[p..p + |r|] == r && AllInClass(s, 0, p, SpaceChars) && AllInClass(s, p + |r|, |s|, SpaceChars);
    assert HasAt(s, p, r);
    forall k | 0 <= k < |r| ensures r[k] in s {
      assert r[k] == s[p + k];
    }
  }

  lemma TrimEndOfTrimStart(s: string)
    ensures IsTrimOf(s, TrimEnd(TrimStart(s)))
  {
    var t := TrimStart(s);
    var r := TrimEnd(t);
    TrimParts(s, t, r);
  }

  /** Leading white space cut off s to give t, then trailing white space cut off t to give r. */
  lemma TrimParts(s: string, t: string, r: string)
    requires |t| <= |s| && t == s[|s| - |t|..] && (forall k :: 0 <= k < |s| - |t| ==> IsSpace(s[k]))
    requires t == [] || !IsSpace(t[0])
    requires |r| <= |t| && r == t[..|r|] && (forall k :: |r| <= k < |t| ==> IsSpace(t[k]))
    requires r == [] || !IsSpace(r[|r| - 1])
    ensures IsTrimOf(s, r)
  {
    var p := |s| - |t|;
    assert s[p..p + |r|] == r;
    AllInClassIntro(s, 0, p, SpaceChars);
    TrailingSpaces(s, t, |r|, p);
    assert IsTrimmed(r) by {
      if r != [] {
        assert r[0] == t[0];
      }
    }
    TrimOfAt(s, r, p);
  }


  /** A trimmed r at p with only white space before and after it is s trimmed. */
  /** White space at the end of a suffix t of s is white space at the end of s. */
  lemma TrailingSpaces(s: string, t: string, n: nat, p: nat)
    requires p + |t| == |s| && t == s[p..] && n <= |t|
    requires forall k :: n <= k < |t| ==> IsSpace(t[k])
    ensures AllInClass(s, p + n, |s|, SpaceChars)
  {
    forall m | p + n <= m < |s| ensures InClass(s[m], SpaceChars) {
      assert s[m] == t[m - p];
    }
    AllInClassIntro(s, p + n, |s|, SpaceChars);
  }

  lemma TrimOfAt(s: string, r: string, p: nat)
    requires p + |r| <= |s| && s[p..p + |r|] == r && IsTrimmed(r)
    requires AllInClass(s, 0, p, SpaceChars) && AllInClass(s, p + |r|, |s|, SpaceChars)
    ensures IsTrimOf(s, r)
  {
  }

  /** Only one string is s trimmed: IsTrimOf pins down what `trim()` returns. */
  lemma TrimUnique(s: string, r: string)
    requires IsTrimOf(s, r)
    ensures r == Trim(s)
  {
    var p :| 0 <= p <= |s| - |r| && s[p..p + |r|] == r
      && AllInClass(s, 0, p, SpaceChars) && AllInClass(s, p + |r|, |s|, SpaceChars);
    forall m | 0 <= m < p ensures IsSpace(s[m]) {
      AllInClassAt(s, 0, p, SpaceChars, m);
    }
    forall m | p + |r| <= m < |s| ensures IsSpace(s[m]) {
      AllInClassAt(s, p + |r|, |s|, SpaceChars, m);
    }
    if r == [] {
      TrimStartAllSpace(s);
    } else {
      TrimAround(s, p, r);
    }
  }

  /** White space only trims to nothing. */
  lemma TrimStartAllSpace(s: string)
    requires forall m :: 0 <= m < |s| ==> IsSpace(s[m])
    ensures TrimStart(s) == []
  {
  }

  /** A non-empty r that starts and ends on something other than white space, with only white space around it in s. */
  lemma TrimAround(s: string, p: nat, r: string)
    requires r != [] && p + |r| <= |s| && s[p..p + |r|] == r && IsTrimmed(r)
    requires forall m :: 0 <= m < p ==> IsSpace(s[m])
    requires forall m :: p + |r| <= m < |s| ==> IsSpace(s[m])
    ensures Trim(s) == r
  {
    assert s[p] == r[0];
    TrimStartAt(s, p);
    var t := TrimStart(s);
    assert t == s[p..];
    assert t[..|r|] == r by {
      forall m | 0 <= m < |r| ensures t[m] == r[m] {
        assert t[m] == s[p + m] == r[m];
      }
    }
    assert t[|r| - 1] == r[|r| - 1];
    forall m | |r| <= m < |t| ensures IsSpace(t[m]) {
      assert t[m] == s[p + m];
    }
    TrimEndAt(t, |r|);
  }

  /** `trimStart()` stops at the first character that is not white space. */
  lemma TrimStartAt(s: string, p: nat)
    requires p < |s| && (forall m :: 0 <= m < p ==> IsSpace(s[m])) && !IsSpace(s[p])
    ensures |TrimStart(s)| == |s| - p
  {
    var t := TrimStart(s);
    var q := |s| - |t|;
    assert q <= p;
    assert s[q] == t[0];
  }

  /** `trimEnd()` stops after the last character that is not white space. */
  lemma TrimEndAt(t: string, n: nat)
    requires 0 < n <= |t| && (forall m :: n <= m < |t| ==> IsSpace(t[m])) && !IsSpace(t[n - 1])
    ensures TrimEnd(t) == t[..n]
  {
    var u := TrimEnd(t);
    assert n <= |u|;
    assert t[|u| - 1] == u[|u| - 1];
  }

  /** ASCII `toLowerCase()`. */
  function LowerChar(c: char): (d: char)
    ensures 'A' <= c <= 'Z' ==> 'a' <= d <= 'z'
    ensures !('A' <= c <= 'Z') ==> d == c
  {
    if 'A' <= c <= 'Z' then (c as int - 'A' as int + 'a' as int) as char else c
  }

  function Lower(s: string): (r: string)
    ensures |r| == |s|
    ensures forall k :: 0 <= k < |s| ==> r[k] == LowerChar(s[k])
  {
    seq(|s|, k requires 0 <= k < |s| => LowerChar(s[k]))
  }
}
