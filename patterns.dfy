/**
 * The fixed regular expressions of the editor script, each written out as the match that
 * JavaScript's backtracking engine returns when it tries the pattern at one position.
 *
 * Every pattern here is a chain of literals and greedy runs in which a run is always
 * followed by something its class cannot match (a `\w+` by `\s`, `=` or `(`, a `\s*` by a
 * literal that is not white space, ...). Giving back characters of a run therefore never
 * helps, and the greedy reading is the only match, except where `\s*` hands its last
 * character to a following `[^;]+` (ValueAt).
 */
module Patterns {
  import opened Wrappers
  import opened Text

  /** A capturing group: the positions [from, to) of the text it holds. */
  datatype Span = Span(from: nat, to: nat)

  /** One match: its index, the index just past it, and its groups in order. */
  datatype Match = Match(start: nat, end: nat, groups: seq<Span>)

  /** A match found at i in s: non-empty, inside s, with every group inside the match. */
  predicate MatchedAt(m: Match, s: string, i: nat) {
    m.start == i < m.end <= |s|
    && forall k :: 0 <= k < |m.groups| ==> i <= m.groups[k].from <= m.groups[k].to <= m.end
  }

  /** A match with one, two or three groups lists them in order. */
  lemma GroupsListed(m: Match)
    ensures |m.groups| == 1 ==> m == Match(m.start, m.end, [m.groups[0]])
    ensures |m.groups| == 2 ==> m == Match(m.start, m.end, [m.groups[0], m.groups[1]])
    ensures |m.groups| == 3 ==> m == Match(m.start, m.end, [m.groups[0], m.groups[1], m.groups[2]])
  {
  }

  /** The text a group holds. */
  function GroupText(s: string, g: Span): string
    requires g.from <= g.to <= |s|
  {
    s[g.from..g.to]
  }

  /** The group holds a non-empty run of word characters. */
  predicate IsWordSpan(s: string, g: Span) {
    g.from < g.to <= |s| && AllInClass(s, g.from, g.to, WordChars)
  }

  /** A word span with no word character right before or right after it. */
  predicate IsDelimitedWord(s: string, g: Span) {
    IsWordSpan(s, g)
    && (g.from == 0 || !IsWordChar(s[g.from - 1]))
    && (g.to == |s| || !IsWordChar(s[g.to]))
  }

  /** A span that is delimited as a word holds a whole-word occurrence of its own text. */
  lemma DelimitedWordIsWhole(s: string, g: Span)
    requires IsDelimitedWord(s, g)
    ensures IsWholeWordAt(s, g.from, GroupText(s, g))
  {
    AllInClassAt(s, g.from, g.to, WordChars, g.from);
    AllInClassAt(s, g.from, g.to, WordChars, g.to - 1);
  }

  /** A run of word characters, bounded by non-word characters, that begins after a space. */
  lemma RunIsDelimitedWord(s: string, b: nat, c: nat)
    requires 0 < b < c <= |s| && IsSpace(s[b - 1])
    requires AllInClass(s, b, c, WordChars) && (c == |s| || !IsWordChar(s[c]))
    ensures IsDelimitedWord(s, Span(b, c))
  {
  }

  /** The character c stands at position i of s. */
  predicate HasChar(s: string, i: nat, c: char) {
    i < |s| && s[i] == c
  }

  // The literals of several patterns, tested character by character.

  predicate HasEqualsEquals(s: string, c: nat) {
    HasChar(s, c, '=') && HasChar(s, c + 1, '=')
  }

  predicate HasAndAnd(s: string, c: nat) {
    HasChar(s, c, '&') && HasChar(s, c + 1, '&')
  }

  predicate HasFalse(s: string, c: nat) {
    HasChar(s, c, 'f') && HasChar(s, c + 1, 'a') && HasChar(s, c + 2, 'l') && HasChar(s, c + 3, 's')
    && HasChar(s, c + 4, 'e')
  }

  predicate HasGet(s: string, c: nat) {
    HasChar(s, c, 'g') && HasChar(s, c + 1, 'e') && HasChar(s, c + 2, 't') && HasChar(s, c + 3, ';')
  }

  predicate HasSet(s: string, c: nat) {
    HasChar(s, c, 's') && HasChar(s, c + 1, 'e') && HasChar(s, c + 2, 't') && HasChar(s, c + 3, ';')
  }

  /** Each of them holds exactly where the literal occurs. */
  lemma LiteralCharacters(s: string, c: nat)
    ensures HasEqualsEquals(s, c) <==> HasAt(s, c, "==")
    ensures HasAndAnd(s, c) <==> HasAt(s, c, "&&")
    ensures HasFalse(s, c) <==> HasAt(s, c, "false")
    ensures HasGet(s, c) <==> HasAt(s, c, "get;")
    ensures HasSet(s, c) <==> HasAt(s, c, "set;")
  {
    if HasAt(s, c, "==") {
      HasAtChar(s, c, "==", 0);
      HasAtChar(s, c, "==", 1);
    }
    if HasAt(s, c, "&&") {
      HasAtChar(s, c, "&&", 0);
      HasAtChar(s, c, "&&", 1);
    }
    if HasAt(s, c, "false") {
      HasAtChar(s, c, "false", 0);
      HasAtChar(s, c, "false", 1);
      HasAtChar(s, c, "false", 2);
      HasAtChar(s, c, "false", 3);
      HasAtChar(s, c, "false", 4);
    }
    if HasAt(s, c, "get;") {
      HasAtChar(s, c, "get;", 0);
      HasAtChar(s, c, "get;", 1);
      HasAtChar(s, c, "get;", 2);
      HasAtChar(s, c, "get;", 3);
    }
    if HasAt(s, c, "set;") {
      HasAtChar(s, c, "set;", 0);
      HasAtChar(s, c, "set;", 1);
      HasAtChar(s, c, "set;", 2);
      HasAtChar(s, c, "set;", 3);
    }
    if HasGet(s, c) {
      assert s[c..c + 4] == "get;";
    }
    if HasSet(s, c) {
      assert s[c..c + 4] == "set;";
    }
    if HasEqualsEquals(s, c) {
      assert s[c..c + 2] == "==";
    }
    if HasAndAnd(s, c) {
      assert s[c..c + 2] == "&&";
    }
    if HasFalse(s, c) {
      assert s[c..c + 5] == "false";
    }
  }


  /** A literal taken from `alts` that occurs at i, the first in order; none when none does. */
  function LiteralAt(s: string, i: nat, alts: seq<string>): (r: Option<string>)
    ensures r.Some? ==> r.value in alts && HasAt(s, i, r.value)
    ensures r.None? ==> forall a :: a in alts ==> !HasAt(s, i, a)
  {
    if alts == [] then None
    else if HasAt(s, i, alts[0]) then Some(alts[0])
    else LiteralAt(s, i, alts[1..])
  }

  /** The first alternative `a` of `(a|b|...)\b` that matches at i. */
  function BoundedLiteralAt(s: string, i: nat, alts: seq<string>): (r: Option<string>)
    ensures r.Some? ==> r.value in alts && HasAt(s, i, r.value) && IsWordBoundary(s, i + |r.value|)
    ensures r.None? ==> forall a :: a in alts ==> !(HasAt(s, i, a) && IsWordBoundary(s, i + |a|))
  {
    if alts == [] then None
    else if HasAt(s, i, alts[0]) && IsWordBoundary(s, i + |alts[0]|) then Some(alts[0])
    else BoundedLiteralAt(s, i, alts[1..])
  }

  /** Some alternative matches, bounded, exactly when the test finds one. */
  lemma BoundedLiteralAtIff(s: string, i: nat, alts: seq<string>)
    ensures BoundedLiteralAt(s, i, alts).Some? <==>
      exists a :: a in alts && HasAt(s, i, a) && IsWordBoundary(s, i + |a|)
  {
    var r := BoundedLiteralAt(s, i, alts);
    if r.Some? {
      assert r.value in alts && HasAt(s, i, r.value) && IsWordBoundary(s, i + |r.value|);
    }
  }

  // ---------------------------------------------------------------------------------------
  // \b(if|for|foreach|while|case|&&|\|\|\?|catch)\b        (computeComplexity, script.js:178)
  // `for` comes before `foreach`, but the \b after it fails inside `foreach`, so the engine
  // moves on to the longer alternative.

  const ComplexityTokens: seq<string> := ["if", "for", "foreach", "while", "case", "&&", "||?", "catch"]

  function ComplexityTokenAt(s: string, i: nat): (r: Option<Match>)
    requires i <= |s|
    ensures r.Some? ==> MatchedAt(r.value, s, i) && r.value.groups == [Span(i, r.value.end)]
    ensures r.Some? ==> s[i..r.value.end] in ComplexityTokens
  {
    if !IsWordBoundary(s, i) then None
    else match BoundedLiteralAt(s, i, ComplexityTokens)
      case None => None
      case Some(t) => Some(Match(i, i + |t|, [Span(i, i + |t|)]))
  }

  /** A token is counted exactly when it stands between two word boundaries. */
  lemma ComplexityTokenAtIff(s: string, i: nat)
    requires i <= |s|
    ensures ComplexityTokenAt(s, i).Some? <==>
      IsWordBoundary(s, i)
      && exists t :: t in ComplexityTokens && HasAt(s, i, t) && IsWordBoundary(s, i + |t|)
    ensures ComplexityTokenAt(s, i).Some? ==> IsWordBoundary(s, ComplexityTokenAt(s, i).value.end)
  {
    BoundedLiteralAtIff(s, i, ComplexityTokens);
  }

  // ---------------------------------------------------------------------------------------
  // \b<name>\b for an identifier <name>                     (script.js:146, 288)

  /** The name occurs at i as a whole word. */
  predicate IsWholeWordAt(s: string, i: nat, name: string) {
    IsWordBoundary(s, i) && HasAt(s, i, name) && IsWordBoundary(s, i + |name|)
  }

  /** A word standing whole at i is the longest run of word characters from i. */
  lemma WholeWordRun(s: string, i: nat, w: string)
    requires IsWord(w) && IsWholeWordAt(s, i, w)
    ensures RunEnd(s, i, WordChars) == i + |w|
  {
    forall m | i <= m < i + |w| ensures InClass(s[m], WordChars) {
      HasAtChar(s, i, w, m - i);
    }
    AllInClassIntro(s, i, i + |w|, WordChars);
    HasAtChar(s, i, w, |w| - 1);
    RunEndAt(s, i, i + |w|, WordChars);
  }

  /** At most one word stands whole at a position: a captured name is pinned down by its start. */
  lemma WholeWordUnique(s: string, i: nat, w1: string, w2: string)
    requires IsWord(w1) && IsWord(w2) && IsWholeWordAt(s, i, w1) && IsWholeWordAt(s, i, w2)
    ensures w1 == w2
  {
    WholeWordRun(s, i, w1);
    WholeWordRun(s, i, w2);
  }

  function WholeWordAt(s: string, i: nat, name: string): (r: Option<Match>)
    requires i <= |s|
    ensures r.Some? ==> MatchedAt(r.value, s, i) && r.value.end == i + |name| && r.value.groups == []
    ensures r.Some? <==> name != [] && IsWholeWordAt(s, i, name)
  {
    if name != [] && IsWholeWordAt(s, i, name) then Some(Match(i, i + |name|, [])) else None
  }

  // ---------------------------------------------------------------------------------------
  // The shapes below say what each pattern matches the way the regex reads, piece by piece;
  // a lemma beside each matcher shows that the matcher returns a match exactly when the text
  // has that shape, with the groups where the shape puts them.

  /** s[a..b] holds only white space: the stretch that a `\s*` or `\s+` covers. */
  predicate Spaces(s: string, a: nat, b: nat) {
    a <= b <= |s| && AllInClass(s, a, b, SpaceChars)
  }

  /** A word span that stops before a character outside `\w` is the run a greedy `\w+` takes. */
  lemma WordRunEnd(s: string, g: Span)
    requires IsWordSpan(s, g) && (g.to == |s| || !IsWordChar(s[g.to]))
    ensures RunEnd(s, g.from, WordChars) == g.to
  {
    RunEndAt(s, g.from, g.to, WordChars);
  }

  /** White space from a up to a word character at b is the run a greedy `\s*` takes. */
  lemma SpacesBeforeWord(s: string, a: nat, g: Span)
    requires Spaces(s, a, g.from) && IsWordSpan(s, g)
    ensures RunEnd(s, a, SpaceChars) == g.from
  {
    WordCharIsNotSpace(s[g.from]);
    RunEndAt(s, a, g.from, SpaceChars);
  }

  /** White space from a up to the literal at b, whose first character is not white space. */
  lemma SpacesBeforeLiteral(s: string, a: nat, b: nat, lit: string)
    requires Spaces(s, a, b) && HasAt(s, b, lit) && lit != [] && !IsSpace(lit[0])
    ensures RunEnd(s, a, SpaceChars) == b
  {
    HasAtChar(s, b, lit, 0);
    RunEndAt(s, a, b, SpaceChars);
  }

  // \b(?:int|var|bool|string|double)\s+(\w+)\s*=           the head of two declaration patterns
  // The type keywords start with five different letters, so at most one of them occurs at i.

  const DeclarationTypes: seq<string> := ["int", "var", "bool", "string", "double"]

  lemma DeclarationTypesExclusive(s: string, i: nat, t1: string, t2: string)
    requires t1 in DeclarationTypes && t2 in DeclarationTypes && HasAt(s, i, t1) && HasAt(s, i, t2)
    ensures t1 == t2
  {
    HasAtChar(s, i, t1, 0);
    HasAtChar(s, i, t2, 0);
  }

  /** Where the head matches at i: the end of the type, the name's span and the `=`. */
  function DeclarationHeadAt(s: string, i: nat): (r: Option<(nat, Span, nat)>)
    requires i <= |s|
    ensures r.Some? ==> i < r.value.0 < r.value.1.from && r.value.1.to <= r.value.2 < |s|
    ensures r.Some? ==> IsDelimitedWord(s, r.value.1)
    ensures r.Some? ==> IsWordBoundary(s, i) && s[i..r.value.0] in DeclarationTypes
    ensures r.Some? ==> s[r.value.2] == '='
  {
    if !IsWordBoundary(s, i) then None
    else match LiteralAt(s, i, DeclarationTypes)
      case None => None
      case Some(t) =>
        var a := i + |t|;
        var b := RunEnd(s, a, SpaceChars);
        var c := RunEnd(s, b, WordChars);
        var d := RunEnd(s, c, SpaceChars);
        if b == a || c == b || !HasChar(s, d, '=') then None
        else
          RunLast(s, a, SpaceChars);
          RunEndIsRun(s, b, WordChars);
          RunIsDelimitedWord(s, b, c);
          Some((a, Span(b, c), d))
  }

  /**
   * The head read off the regex: a word boundary at i, a type keyword up to a, white space,
   * the name as a run of word characters, optional white space, and `=` at d.
   */
  predicate DeclarationHeadShape(s: string, i: nat, a: nat, name: Span, d: nat) {
    IsWordBoundary(s, i) && i < a <= |s| && s[i..a] in DeclarationTypes
    && a < name.from && Spaces(s, a, name.from) && IsWordSpan(s, name)
    && Spaces(s, name.to, d) && HasChar(s, d, '=')
  }

  lemma DeclarationHeadAtIff(s: string, i: nat, a: nat, name: Span, d: nat)
    requires i <= |s|
    ensures DeclarationHeadAt(s, i) == Some((a, name, d)) <==> DeclarationHeadShape(s, i, a, name, d)
  {
    if DeclarationHeadAt(s, i) == Some((a, name, d)) {
      RunEndIsRun(s, a, SpaceChars);
      RunEndIsRun(s, name.from, WordChars);
      RunEndIsRun(s, name.to, SpaceChars);
    }
    if DeclarationHeadShape(s, i, a, name, d) {
      DeclarationHeadFromShape(s, i, a, name, d);
    }
  }

  lemma DeclarationHeadFromShape(s: string, i: nat, a: nat, name: Span, d: nat)
    requires i <= |s| && DeclarationHeadShape(s, i, a, name, d)
    ensures DeclarationHeadAt(s, i) == Some((a, name, d))
  {
    var t := s[i..a];
    assert HasAt(s, i, t);
    var found := LiteralAt(s, i, DeclarationTypes);
    DeclarationTypesExclusive(s, i, found.value, t);
    SpacesBeforeWord(s, a, name);
    SpacesBeforeLiteral(s, name.to, d, "=");
    if name.to < d {
      WordCharIsNotSpace(s[name.to]);
    }
    WordRunEnd(s, name);
  }

  /**
   * `\s*([^;]+)` at o: the group's span. `\s*` takes all the white space unless that leaves
   * `[^;]+` nothing, in which case it gives back its last character.
   */
  function ValueAt(s: string, o: nat): (r: Option<Span>)
    requires o <= |s|
    ensures r.Some? ==> o <= r.value.from < r.value.to <= |s|
    ensures r.Some? ==> AllInClass(s, r.value.from, r.value.to, NonSemicolon)
    ensures r.Some? ==> r.value.to == |s| || s[r.value.to] == ';'
    ensures r.None? <==> o == |s| || s[o] == ';'
  {
    var e := RunEnd(s, o, SpaceChars);
    var f := RunEnd(s, e, NonSemicolon);
    RunEndIsRun(s, e, NonSemicolon);
    if f == e && e == o then None
    else if f > e then Some(Span(e, f))
    else
      RunLast(s, o, SpaceChars);
      Some(Span(e - 1, f))
  }

  /**
   * The value read off `\s*([^;]+)` at o: white space up to the group, the group up to the
   * next `;` or the end, and the group starts on the first character that is not white
   * space, unless only white space is left before the `;`, when it holds the last of it.
   */
  predicate ValueShape(s: string, o: nat, v: Span) {
    o <= v.from < v.to <= |s| && Spaces(s, o, v.from)
    && AllInClass(s, v.from, v.to, NonSemicolon) && (v.to == |s| || s[v.to] == ';')
    && (!IsSpace(s[v.from]) || v.to == v.from + 1)
  }

  lemma ValueAtIff(s: string, o: nat, v: Span)
    requires o <= |s|
    ensures ValueAt(s, o) == Some(v) <==> ValueShape(s, o, v)
  {
    if ValueAt(s, o) == Some(v) {
      ValueShapeOfMatch(s, o);
    }
    if ValueShape(s, o, v) {
      ValueFromShape(s, o, v);
    }
  }

  lemma ValueShapeOfMatch(s: string, o: nat)
    requires o <= |s| && ValueAt(s, o).Some?
    ensures ValueShape(s, o, ValueAt(s, o).value)
  {
    var e := RunEnd(s, o, SpaceChars);
    var f := RunEnd(s, e, NonSemicolon);
    RunEndIsRun(s, o, SpaceChars);
    RunEndIsRun(s, e, NonSemicolon);
    if f == e {
      RunLast(s, o, SpaceChars);
      AllInClassPrefix(s, o, e - 1, e, SpaceChars);
    }
  }

  lemma ValueFromShape(s: string, o: nat, v: Span)
    requires o <= |s| && ValueShape(s, o, v)
    ensures ValueAt(s, o) == Some(v)
  {
    if IsSpace(s[v.from]) {
      AllInClassAppend(s, o, v.from, v.to, SpaceChars);
      RunEndAt(s, o, v.to, SpaceChars);
      RunEndAt(s, v.to, v.to, NonSemicolon);
    } else {
      RunEndAt(s, o, v.from, SpaceChars);
      RunEndAt(s, v.from, v.to, NonSemicolon);
    }
  }

  // \b(?:int|var|bool|string|double)\s+(\w+)\s*=.*        (drawFlowMappings, script.js:138)

  function TypedDeclarationAt(s: string, i: nat): (r: Option<Match>)
    requires i <= |s|
    ensures r.Some? ==> MatchedAt(r.value, s, i) && |r.value.groups| == 1
    ensures r.Some? ==> i < r.value.groups[0].from && IsWordSpan(s, r.value.groups[0])
    ensures r.Some? ==> IsWholeWordAt(s, r.value.groups[0].from, GroupText(s, r.value.groups[0]))
  {
    var head := DeclarationHeadAt(s, i);
    if head.None? then None
    else
      DelimitedWordIsWhole(s, head.value.1);
      Some(Match(i, LineRunEnd(s, head.value.2), [head.value.1]))
  }

  /** `.*` after position d: the end of the run of non-terminator characters. */
  function LineRunEnd(s: string, d: nat): nat
    requires d < |s|
  {
    RunEnd(s, d + 1, LineChars)
  }

  /** The head, then `.*`: everything up to the end of the line. */
  ghost predicate TypedDeclarationShape(s: string, i: nat, m: Match) {
    m.start == i && |m.groups| == 1 && m.end <= |s|
    && (exists a: nat, d: nat :: DeclarationHeadShape(s, i, a, m.groups[0], d)
         && d < m.end && AllInClass(s, d + 1, m.end, LineChars))
    && (m.end == |s| || IsLineTerminator(s[m.end]))
  }

  lemma TypedDeclarationAtIff(s: string, i: nat, m: Match)
    requires i <= |s|
    ensures TypedDeclarationAt(s, i) == Some(m) <==> TypedDeclarationShape(s, i, m)
  {
    if TypedDeclarationAt(s, i) == Some(m) {
      TypedDeclarationShapeOfMatch(s, i);
    }
    if TypedDeclarationShape(s, i, m) {
      TypedDeclarationFromShape(s, i, m);
    }
  }

  lemma TypedDeclarationShapeOfMatch(s: string, i: nat)
    requires i <= |s| && TypedDeclarationAt(s, i).Some?
    ensures TypedDeclarationShape(s, i, TypedDeclarationAt(s, i).value)
  {
    var (a, name, d) := DeclarationHeadAt(s, i).value;
    var end := LineRunEnd(s, d);
    assert TypedDeclarationAt(s, i).value == Match(i, end, [name]);
    DeclarationHeadAtIff(s, i, a, name, d);
    RunEndIsRun(s, d + 1, LineChars);
    TypedDeclarationShapeFromParts(s, i, a, name, d, end);
  }

  lemma TypedDeclarationShapeFromParts(s: string, i: nat, a: nat, name: Span, d: nat, end: nat)
    requires DeclarationHeadShape(s, i, a, name, d)
    requires d < end <= |s| && AllInClass(s, d + 1, end, LineChars) && (end == |s| || IsLineTerminator(s[end]))
    ensures TypedDeclarationShape(s, i, Match(i, end, [name]))
  {
    assert Match(i, end, [name]).groups[0] == name;
  }

  lemma TypedDeclarationFromShape(s: string, i: nat, m: Match)
    requires i <= |s| && TypedDeclarationShape(s, i, m)
    ensures TypedDeclarationAt(s, i) == Some(m)
  {
    var a: nat, d: nat :| DeclarationHeadShape(s, i, a, m.groups[0], d)
      && d < m.end && AllInClass(s, d + 1, m.end, LineChars);
    DeclarationHeadAtIff(s, i, a, m.groups[0], d);
    TypedDeclarationFromParts(s, i, a, m.groups[0], d, m.end);
    GroupsListed(m);
  }

  lemma TypedDeclarationFromParts(s: string, i: nat, a: nat, name: Span, d: nat, end: nat)
    requires i <= |s| && DeclarationHeadAt(s, i) == Some((a, name, d))
    requires d < end <= |s| && AllInClass(s, d + 1, end, LineChars) && (end == |s| || IsLineTerminator(s[end]))
    ensures TypedDeclarationAt(s, i) == Some(Match(i, end, [name]))
  {
    RunEndAt(s, d + 1, end, LineChars);
    TypedDeclarationOfHead(s, i, (a, name, d), end);
  }

  lemma TypedDeclarationOfHead(s: string, i: nat, h: (nat, Span, nat), end: nat)
    requires i <= |s| && DeclarationHeadAt(s, i) == Some(h)
    requires h.2 < |s| && LineRunEnd(s, h.2) == end
    ensures TypedDeclarationAt(s, i) == Some(Match(i, end, [h.1]))
  {
  }

  // \b(int|var|bool|string|double)\s+(\w+)\s*=\s*([^;]+)  (runDebug, script.js:214)

  function TracedDeclarationAt(s: string, i: nat): (r: Option<Match>)
    requires i <= |s|
    ensures r.Some? ==> MatchedAt(r.value, s, i) && |r.value.groups| == 3
    ensures r.Some? ==> GroupText(s, r.value.groups[0]) in DeclarationTypes
    ensures r.Some? ==> IsDelimitedWord(s, r.value.groups[1])
    ensures r.Some? ==> var v := r.value.groups[2];
      v.from < v.to && AllInClass(s, v.from, v.to, NonSemicolon)
  {
    match DeclarationHeadAt(s, i)
    case None => None
    case Some((a, name, d)) =>
      match ValueAt(s, d + 1)
      case None => None
      case Some(value) => Some(Match(i, value.to, [Span(i, a), name, value]))
  }

  /** The head with the type as group 1, then the value after the `=` as group 3. */
  ghost predicate TracedDeclarationShape(s: string, i: nat, m: Match) {
    m.start == i && |m.groups| == 3 && m.groups[0].from == i
    && (exists d: nat :: DeclarationHeadShape(s, i, m.groups[0].to, m.groups[1], d)
         && ValueShape(s, d + 1, m.groups[2]))
    && m.end == m.groups[2].to
  }

  lemma TracedDeclarationAtIff(s: string, i: nat, m: Match)
    requires i <= |s|
    ensures TracedDeclarationAt(s, i) == Some(m) <==> TracedDeclarationShape(s, i, m)
  {
    if TracedDeclarationAt(s, i) == Some(m) {
      TracedDeclarationShapeOfMatch(s, i);
    }
    if TracedDeclarationShape(s, i, m) {
      TracedDeclarationFromShape(s, i, m);
    }
  }

  lemma TracedDeclarationShapeOfMatch(s: string, i: nat)
    requires i <= |s| && TracedDeclarationAt(s, i).Some?
    ensures TracedDeclarationShape(s, i, TracedDeclarationAt(s, i).value)
  {
    var (a, name, d) := DeclarationHeadAt(s, i).value;
    var v := ValueAt(s, d + 1).value;
    assert TracedDeclarationAt(s, i).value == Match(i, v.to, [Span(i, a), name, v]);
    DeclarationHeadAtIff(s, i, a, name, d);
    ValueAtIff(s, d + 1, v);
    TracedDeclarationShapeFromParts(s, i, a, name, d, v);
  }

  lemma TracedDeclarationShapeFromParts(s: string, i: nat, a: nat, name: Span, d: nat, v: Span)
    requires DeclarationHeadShape(s, i, a, name, d) && ValueShape(s, d + 1, v)
    ensures TracedDeclarationShape(s, i, Match(i, v.to, [Span(i, a), name, v]))
  {
    var m := Match(i, v.to, [Span(i, a), name, v]);
    assert m.groups[0].to == a && m.groups[1] == name && m.groups[2] == v;
  }

  lemma TracedDeclarationFromShape(s: string, i: nat, m: Match)
    requires i <= |s| && TracedDeclarationShape(s, i, m)
    ensures TracedDeclarationAt(s, i) == Some(m)
  {
    var d: nat :| DeclarationHeadShape(s, i, m.groups[0].to, m.groups[1], d)
      && ValueShape(s, d + 1, m.groups[2]);
    DeclarationHeadAtIff(s, i, m.groups[0].to, m.groups[1], d);
    ValueAtIff(s, d + 1, m.groups[2]);
    TracedDeclarationFromParts(s, i, m.groups[0].to, m.groups[1], d, m.groups[2]);
    GroupsListed(m);
  }

  lemma TracedDeclarationFromParts(s: string, i: nat, a: nat, name: Span, d: nat, value: Span)
    requires i <= |s| && DeclarationHeadAt(s, i) == Some((a, name, d)) && ValueAt(s, d + 1) == Some(value)
    ensures TracedDeclarationAt(s, i) == Some(Match(i, value.to, [Span(i, a), name, value]))
  {
  }

  // ---------------------------------------------------------------------------------------
  // (\w+)\s*([+\-*\/]?=)\s*([^;]+);                        (buildStateTimeline, script.js:251)
  // There is no \b in front: a match can begin inside a word. The operator is `=` or one of
  // + - * / followed by `=`; `[^;]+` crosses line feeds and needs a `;` after it.

  const AssignmentOperators: seq<string> := ["=", "+=", "-=", "*=", "/="]

  predicate IsArithmeticSign(c: char) { c == '+' || c == '-' || c == '*' || c == '/' }

  /** `([+\-*\/]?=)` at b: the end of the operator. The optional sign is tried first. */
  function OperatorAt(s: string, b: nat): (r: Option<nat>)
    requires b <= |s|
    ensures r.Some? ==> b < r.value <= |s| && s[b..r.value] in AssignmentOperators
  {
    if b + 1 < |s| && IsArithmeticSign(s[b]) && s[b + 1] == '=' then
      assert s[b..b + 2] == [s[b], '='];
      Some(b + 2)
    else if b < |s| && s[b] == '=' then
      assert s[b..b + 1] == ['='];
      Some(b + 1)
    else None
  }

  /** The operator is one of the five that the character class and `=` spell. */
  predicate OperatorShape(s: string, b: nat, o: nat) {
    b < o <= |s| && s[b..o] in AssignmentOperators
  }

  lemma OperatorAtIff(s: string, b: nat, o: nat)
    requires b <= |s|
    ensures OperatorAt(s, b) == Some(o) <==> OperatorShape(s, b, o)
  {
    if OperatorShape(s, b, o) {
      var op := s[b..o];
      assert op[0] == s[b];
      if o == b + 2 {
        assert op[1] == s[b + 1];
      }
    }
  }

  /** An operator starts with `=` or a sign, neither of them a word character or white space. */
  lemma OperatorStart(s: string, b: nat, o: nat)
    requires OperatorShape(s, b, o)
    ensures s[b] == '=' || IsArithmeticSign(s[b])
  {
    assert s[b..o][0] == s[b];
  }

  function AssignmentAt(s: string, i: nat): (r: Option<Match>)
    requires i <= |s|
    ensures r.Some? ==> MatchedAt(r.value, s, i) && |r.value.groups| == 3
    ensures r.Some? ==> IsWordSpan(s, r.value.groups[0]) && r.value.groups[0].from == i
    ensures r.Some? ==> r.value.groups[0].to < |s| && !IsWordChar(s[r.value.groups[0].to])
    ensures r.Some? ==> GroupText(s, r.value.groups[1]) in AssignmentOperators
    ensures r.Some? ==> var v := r.value.groups[2];
      v.from < v.to && AllInClass(s, v.from, v.to, NonSemicolon)
    ensures r.Some? ==> s[r.value.end - 1] == ';' && r.value.end == r.value.groups[2].to + 1
  {
    var a := RunEnd(s, i, WordChars);
    var b := RunEnd(s, a, SpaceChars);
    RunEndIsRun(s, i, WordChars);
    if a == i then None
    else match OperatorAt(s, b)
      case None => None
      case Some(o) =>
        match ValueAt(s, o)
        case None => None
        case Some(value) =>
          if value.to == |s| then None
          else Some(Match(i, value.to + 1, [Span(i, a), Span(b, o), value]))
  }

  /**
   * The assignment read off the regex: a word from i, optional white space, the operator,
   * the value up to the next `;`, and that `;`.
   */
  predicate AssignmentShape(s: string, i: nat, m: Match) {
    m.start == i && |m.groups| == 3
    && m.groups[0].from == i && IsWordSpan(s, m.groups[0])
    && Spaces(s, m.groups[0].to, m.groups[1].from)
    && OperatorShape(s, m.groups[1].from, m.groups[1].to)
    && ValueShape(s, m.groups[1].to, m.groups[2])
    && m.groups[2].to < |s| && m.end == m.groups[2].to + 1
  }

  lemma AssignmentAtIff(s: string, i: nat, m: Match)
    requires i <= |s|
    ensures AssignmentAt(s, i) == Some(m) <==> AssignmentShape(s, i, m)
  {
    if AssignmentAt(s, i) == Some(m) {
      var g := m.groups;
      RunEndIsRun(s, g[0].to, SpaceChars);
      OperatorAtIff(s, g[1].from, g[1].to);
      ValueAtIff(s, g[1].to, g[2]);
    }
    if AssignmentShape(s, i, m) {
      AssignmentFromShape(s, i, m);
    }
  }

  lemma AssignmentFromShape(s: string, i: nat, m: Match)
    requires i <= |s| && AssignmentShape(s, i, m)
    ensures AssignmentAt(s, i) == Some(m)
  {
    var g := m.groups;
    OperatorStart(s, g[1].from, g[1].to);
    if g[0].to < g[1].from {
      WordCharIsNotSpace(s[g[0].to]);
    }
    WordRunEnd(s, g[0]);
    RunEndAt(s, g[0].to, g[1].from, SpaceChars);
    OperatorAtIff(s, g[1].from, g[1].to);
    ValueAtIff(s, g[1].to, g[2]);
    assert g == [Span(i, g[0].to), Span(g[1].from, g[1].to), g[2]];
  }

  // ---------------------------------------------------------------------------------------
  // public\s+(\w+)\s*\(                                    (buildBoilerplateSummary, script.js:260)
  // No \b: the name must follow `public` and white space directly, so `public int F(` does
  // not match here.

  function ConstructorSignatureAt(s: string, i: nat): (r: Option<Match>)
    requires i <= |s|
    ensures r.Some? ==> MatchedAt(r.value, s, i) && |r.value.groups| == 1
    ensures r.Some? ==> HasAt(s, i, "public") && IsDelimitedWord(s, r.value.groups[0])
    ensures r.Some? ==> HasChar(s, r.value.end - 1, '(')
  {
    if !HasAt(s, i, "public") then None
    else
      var a := i + 6;
      var b := RunEnd(s, a, SpaceChars);
      var c := RunEnd(s, b, WordChars);
      var d := RunEnd(s, c, SpaceChars);
      if b == a || c == b || !HasChar(s, d, '(') then None
      else
        RunLast(s, a, SpaceChars);
        RunEndIsRun(s, b, WordChars);
        RunIsDelimitedWord(s, b, c);
        Some(Match(i, d + 1, [Span(b, c)]))
  }

  /** `public`, white space, the name as a word, optional white space and `(`. */
  predicate ConstructorSignatureShape(s: string, i: nat, m: Match) {
    m.start == i && |m.groups| == 1 && HasAt(s, i, "public")
    && i + 6 < m.groups[0].from && Spaces(s, i + 6, m.groups[0].from) && IsWordSpan(s, m.groups[0])
    && m.groups[0].to < m.end && Spaces(s, m.groups[0].to, m.end - 1) && HasChar(s, m.end - 1, '(')
  }

  lemma ConstructorSignatureAtIff(s: string, i: nat, m: Match)
    requires i <= |s|
    ensures ConstructorSignatureAt(s, i) == Some(m) <==> ConstructorSignatureShape(s, i, m)
  {
    if ConstructorSignatureAt(s, i) == Some(m) {
      ConstructorSignatureShapeOfMatch(s, i);
    }
    if ConstructorSignatureShape(s, i, m) {
      ConstructorSignatureFromParts(s, i, m.groups[0], m.end);
      GroupsListed(m);
    }
  }

  lemma ConstructorSignatureShapeOfMatch(s: string, i: nat)
    requires i <= |s| && ConstructorSignatureAt(s, i).Some?
    ensures ConstructorSignatureShape(s, i, ConstructorSignatureAt(s, i).value)
  {
    var b := RunEnd(s, i + 6, SpaceChars);
    var c := RunEnd(s, b, WordChars);
    var d := RunEnd(s, c, SpaceChars);
    RunEndIsRun(s, i + 6, SpaceChars);
    RunEndIsRun(s, c, SpaceChars);
    assert ConstructorSignatureAt(s, i).value == Match(i, d + 1, [Span(b, c)]);
  }

  lemma ConstructorSignatureFromParts(s: string, i: nat, g: Span, end: nat)
    requires i <= |s| && HasAt(s, i, "public")
    requires i + 6 < g.from && Spaces(s, i + 6, g.from) && IsWordSpan(s, g)
    requires g.to < end && Spaces(s, g.to, end - 1) && HasChar(s, end - 1, '(')
    ensures ConstructorSignatureAt(s, i) == Some(Match(i, end, [g]))
  {
    SpacesBeforeWord(s, i + 6, g);
    SpacesBeforeLiteral(s, g.to, end - 1, "(");
    if g.to < end - 1 {
      WordCharIsNotSpace(s[g.to]);
    }
    WordRunEnd(s, g);
  }

  // ---------------------------------------------------------------------------------------
  // public\s+\w+\s+(\w+)\s*                                the common head of two patterns

  /** After `public`, white space, the type word and white space: the name's span. */
  function TypedMemberHeadAt(s: string, i: nat): (r: Option<Span>)
    requires i <= |s|
    ensures r.Some? ==> i + 6 < r.value.from && HasAt(s, i, "public")
    ensures r.Some? ==> IsDelimitedWord(s, r.value)
  {
    if !HasAt(s, i, "public") then None
    else
      var a := i + 6;
      var b := RunEnd(s, a, SpaceChars);
      var c := RunEnd(s, b, WordChars);
      var d := RunEnd(s, c, SpaceChars);
      var e := RunEnd(s, d, WordChars);
      if b == a || c == b || d == c || e == d then None
      else
        RunLast(s, c, SpaceChars);
        RunEndIsRun(s, d, WordChars);
        RunIsDelimitedWord(s, d, e);
        Some(Span(d, e))
  }

  /** `public`, white space, a type word [b, c), white space, and the name as a whole run of word characters. */
  ghost predicate TypedMemberHeadShape(s: string, i: nat, name: Span) {
    HasAt(s, i, "public")
    && (exists b: nat, c: nat :: i + 6 < b && c < name.from && IsWordSpan(s, Span(b, c))
         && Spaces(s, i + 6, b) && Spaces(s, c, name.from))
    && IsWordSpan(s, name) && (name.to == |s| || !IsWordChar(s[name.to]))
  }

  lemma TypedMemberHeadAtIff(s: string, i: nat, name: Span)
    requires i <= |s|
    ensures TypedMemberHeadAt(s, i) == Some(name) <==> TypedMemberHeadShape(s, i, name)
  {
    if TypedMemberHeadAt(s, i) == Some(name) {
      var b := RunEnd(s, i + 6, SpaceChars);
      var c := RunEnd(s, b, WordChars);
      RunEndIsRun(s, i + 6, SpaceChars);
      RunEndIsRun(s, b, WordChars);
      RunEndIsRun(s, c, SpaceChars);
      assert IsWordSpan(s, Span(b, c));
    }
    if TypedMemberHeadShape(s, i, name) {
      var b: nat, c: nat :| i + 6 < b && c < name.from && IsWordSpan(s, Span(b, c))
        && Spaces(s, i + 6, b) && Spaces(s, c, name.from);
      SpacesBeforeWord(s, i + 6, Span(b, c));
      WordCharIsNotSpace(s[c]);
      WordRunEnd(s, Span(b, c));
      SpacesBeforeWord(s, c, name);
      WordRunEnd(s, name);
    }
  }

  // public\s+\w+\s+(\w+)\s*{\s*get;\s*set;\s*}            (buildBoilerplateSummary, script.js:261)

  /** `\s*{\s*get;\s*set;\s*}` at e: the end of the match. */
  function AccessorsAt(s: string, e: nat): (r: Option<nat>)
    requires e <= |s|
    ensures r.Some? ==> e < r.value && HasChar(s, r.value - 1, '}')
  {
    var f := RunEnd(s, e, SpaceChars);
    if !HasChar(s, f, '{') then None
    else
      var g := RunEnd(s, f + 1, SpaceChars);
      if !HasGet(s, g) then None
      else
        var h := RunEnd(s, g + 4, SpaceChars);
        if !HasSet(s, h) then None
        else
          var k := RunEnd(s, h + 4, SpaceChars);
          if !HasChar(s, k, '}') then None else Some(k + 1)
  }

  /** `{`, `get;`, `set;` and the `}` that ends the match at end - 1, with optional white space around each. */
  ghost predicate AccessorsShape(s: string, e: nat, end: nat) {
    exists f: nat, g: nat, h: nat :: Spaces(s, e, f) && HasChar(s, f, '{') && Spaces(s, f + 1, g) && HasGet(s, g)
      && Spaces(s, g + 4, h) && HasSet(s, h)
      && h + 4 < end && Spaces(s, h + 4, end - 1) && HasChar(s, end - 1, '}')
  }

  lemma AccessorsAtIff(s: string, e: nat, end: nat)
    requires e <= |s|
    ensures AccessorsAt(s, e) == Some(end) <==> AccessorsShape(s, e, end)
  {
    if AccessorsAt(s, e) == Some(end) {
      AccessorsShapeOfMatch(s, e);
    }
    if AccessorsShape(s, e, end) {
      var f: nat, g: nat, h: nat :| Spaces(s, e, f) && HasChar(s, f, '{') && Spaces(s, f + 1, g) && HasGet(s, g)
        && Spaces(s, g + 4, h) && HasSet(s, h)
        && h + 4 < end && Spaces(s, h + 4, end - 1) && HasChar(s, end - 1, '}');
      AccessorsFromShape(s, e, f, g, h, end);
    }
  }

  lemma AccessorsShapeOfMatch(s: string, e: nat)
    requires e <= |s| && AccessorsAt(s, e).Some?
    ensures AccessorsShape(s, e, AccessorsAt(s, e).value)
  {
    var f := RunEnd(s, e, SpaceChars);
    var g := RunEnd(s, f + 1, SpaceChars);
    var h := RunEnd(s, g + 4, SpaceChars);
    var k := RunEnd(s, h + 4, SpaceChars);
    RunEndIsRun(s, e, SpaceChars);
    RunEndIsRun(s, f + 1, SpaceChars);
    RunEndIsRun(s, g + 4, SpaceChars);
    RunEndIsRun(s, h + 4, SpaceChars);
    assert AccessorsAt(s, e).value == k + 1;
    assert Spaces(s, e, f) && HasChar(s, f, '{') && Spaces(s, f + 1, g) && HasGet(s, g)
      && Spaces(s, g + 4, h) && HasSet(s, h)
      && h + 4 < k + 1 && Spaces(s, h + 4, k) && HasChar(s, k, '}');
  }

  lemma AccessorsFromShape(s: string, e: nat, f: nat, g: nat, h: nat, end: nat)
    requires e <= |s|
    requires Spaces(s, e, f) && HasChar(s, f, '{') && Spaces(s, f + 1, g) && HasGet(s, g)
    requires Spaces(s, g + 4, h) && HasSet(s, h)
    requires h + 4 < end && Spaces(s, h + 4, end - 1) && HasChar(s, end - 1, '}')
    ensures AccessorsAt(s, e) == Some(end)
  {
    assert RunEnd(s, e, SpaceChars) == f by {
      RunEndAt(s, e, f, SpaceChars);
    }
    assert RunEnd(s, f + 1, SpaceChars) == g by {
      RunEndAt(s, f + 1, g, SpaceChars);
    }
    assert RunEnd(s, g + 4, SpaceChars) == h by {
      RunEndAt(s, g + 4, h, SpaceChars);
    }
    assert RunEnd(s, h + 4, SpaceChars) == end - 1 by {
      RunEndAt(s, h + 4, end - 1, SpaceChars);
    }
  }

  function AutoPropertyAt(s: string, i: nat): (r: Option<Match>)
    requires i <= |s|
    ensures r.Some? ==> MatchedAt(r.value, s, i) && |r.value.groups| == 1
    ensures r.Some? ==> HasAt(s, i, "public") && IsDelimitedWord(s, r.value.groups[0])
    ensures r.Some? ==> HasChar(s, r.value.end - 1, '}')
  {
    match TypedMemberHeadAt(s, i)
    case None => None
    case Some(name) =>
      match AccessorsAt(s, name.to)
      case None => None
      case Some(end) => Some(Match(i, end, [name]))
  }

  /** The typed member head, then the accessors `{ get; set; }` up to the closing brace. */
  ghost predicate AutoPropertyShape(s: string, i: nat, m: Match) {
    m.start == i && |m.groups| == 1
    && TypedMemberHeadShape(s, i, m.groups[0]) && AccessorsShape(s, m.groups[0].to, m.end)
  }

  lemma AutoPropertyAtIff(s: string, i: nat, m: Match)
    requires i <= |s|
    ensures AutoPropertyAt(s, i) == Some(m) <==> AutoPropertyShape(s, i, m)
  {
    if AutoPropertyAt(s, i) == Some(m) {
      AutoPropertyShapeOfMatch(s, i);
    }
    if AutoPropertyShape(s, i, m) {
      AutoPropertyFromShape(s, i, m);
    }
  }

  lemma AutoPropertyShapeOfMatch(s: string, i: nat)
    requires i <= |s| && AutoPropertyAt(s, i).Some?
    ensures AutoPropertyShape(s, i, AutoPropertyAt(s, i).value)
  {
    var name := TypedMemberHeadAt(s, i).value;
    TypedMemberHeadAtIff(s, i, name);
    var end := AccessorsAt(s, name.to).value;
    AccessorsAtIff(s, name.to, end);
    assert AutoPropertyAt(s, i).value == Match(i, end, [name]);
  }

  lemma AutoPropertyFromShape(s: string, i: nat, m: Match)
    requires i <= |s| && AutoPropertyShape(s, i, m)
    ensures AutoPropertyAt(s, i) == Some(m)
  {
    var name := m.groups[0];
    TypedMemberHeadAtIff(s, i, name);
    AccessorsAtIff(s, name.to, m.end);
    assert m == Match(i, m.end, [name]);
  }

  // public\s+\w+\s+(\w+)\s*\(                              (applyHeatmap, script.js:285)

  function MethodSignatureAt(s: string, i: nat): (r: Option<Match>)
    requires i <= |s|
    ensures r.Some? ==> MatchedAt(r.value, s, i) && |r.value.groups| == 1
    ensures r.Some? ==> HasAt(s, i, "public") && IsWordSpan(s, r.value.groups[0])
    ensures r.Some? ==> IsWholeWordAt(s, r.value.groups[0].from, GroupText(s, r.value.groups[0]))
  {
    match TypedMemberHeadAt(s, i)
    case None => None
    case Some(name) =>
      var f := RunEnd(s, name.to, SpaceChars);
      if !HasChar(s, f, '(') then None
      else
        DelimitedWordIsWhole(s, name);
        Some(Match(i, f + 1, [name]))
  }

  /** The typed member head, optional white space and `(`. */
  ghost predicate MethodSignatureShape(s: string, i: nat, m: Match) {
    m.start == i && |m.groups| == 1 && TypedMemberHeadShape(s, i, m.groups[0])
    && m.groups[0].to < m.end && Spaces(s, m.groups[0].to, m.end - 1) && HasChar(s, m.end - 1, '(')
  }

  lemma MethodSignatureAtIff(s: string, i: nat, m: Match)
    requires i <= |s|
    ensures MethodSignatureAt(s, i) == Some(m) <==> MethodSignatureShape(s, i, m)
  {
    if MethodSignatureAt(s, i) == Some(m) {
      MethodSignatureShapeOfMatch(s, i);
    }
    if MethodSignatureShape(s, i, m) {
      MethodSignatureFromShape(s, i, m);
    }
  }

  lemma MethodSignatureShapeOfMatch(s: string, i: nat)
    requires i <= |s| && MethodSignatureAt(s, i).Some?
    ensures MethodSignatureShape(s, i, MethodSignatureAt(s, i).value)
  {
    var name := TypedMemberHeadAt(s, i).value;
    TypedMemberHeadAtIff(s, i, name);
    var f := RunEnd(s, name.to, SpaceChars);
    RunEndIsRun(s, name.to, SpaceChars);
    assert MethodSignatureAt(s, i).value == Match(i, f + 1, [name]);
  }

  lemma MethodSignatureFromShape(s: string, i: nat, m: Match)
    requires i <= |s| && MethodSignatureShape(s, i, m)
    ensures MethodSignatureAt(s, i) == Some(m)
  {
    var name := m.groups[0];
    TypedMemberHeadAtIff(s, i, name);
    SpacesBeforeLiteral(s, name.to, m.end - 1, "(");
    assert m == Match(i, m.end, [name]);
  }

  // ---------------------------------------------------------------------------------------
  // \((\w+)\s*==\s*false\s*&&\s*(\w+)\s*==\s*false\)      (booleanSimplifier, script.js:272)

  /** `(\w+)\s*==\s*false` at i: the word's span and the position after `false`. */
  function FalseComparisonAt(s: string, i: nat): (r: Option<(Span, nat)>)
    requires i <= |s|
    ensures r.Some? ==> r.value.0.from == i && IsWordSpan(s, r.value.0) && r.value.0.to < r.value.1 <= |s|
    ensures r.Some? ==> r.value.0.to == |s| || !IsWordChar(s[r.value.0.to])
  {
    var b := RunEnd(s, i, WordChars);
    var c := RunEnd(s, b, SpaceChars);
    if b == i || !HasEqualsEquals(s, c) then None
    else
      var d := RunEnd(s, c + 2, SpaceChars);
      RunEndIsRun(s, i, WordChars);
      if !HasFalse(s, d) then None else Some((Span(i, b), d + 5))
  }

  /** The word w from i, optional white space, `==`, optional white space and `false`, which ends at y. */
  ghost predicate FalseComparisonShape(s: string, i: nat, w: Span, y: nat) {
    w.from == i && IsWordSpan(s, w)
    && exists c: nat, d: nat :: Spaces(s, w.to, c) && HasEqualsEquals(s, c) && Spaces(s, c + 2, d)
         && HasFalse(s, d) && y == d + 5
  }

  lemma FalseComparisonAtIff(s: string, i: nat, w: Span, y: nat)
    requires i <= |s|
    ensures FalseComparisonAt(s, i) == Some((w, y)) <==> FalseComparisonShape(s, i, w, y)
  {
    if FalseComparisonAt(s, i) == Some((w, y)) {
      FalseComparisonShapeOfMatch(s, i);
    }
    if FalseComparisonShape(s, i, w, y) {
      var c: nat, d: nat :| Spaces(s, w.to, c) && HasEqualsEquals(s, c) && Spaces(s, c + 2, d)
        && HasFalse(s, d) && y == d + 5;
      FalseComparisonFromShape(s, i, w, c, d);
    }
  }

  lemma FalseComparisonShapeOfMatch(s: string, i: nat)
    requires i <= |s| && FalseComparisonAt(s, i).Some?
    ensures FalseComparisonShape(s, i, FalseComparisonAt(s, i).value.0, FalseComparisonAt(s, i).value.1)
  {
    var b := RunEnd(s, i, WordChars);
    var c := RunEnd(s, b, SpaceChars);
    var d := RunEnd(s, c + 2, SpaceChars);
    RunEndIsRun(s, b, SpaceChars);
    RunEndIsRun(s, c + 2, SpaceChars);
    assert FalseComparisonAt(s, i).value == (Span(i, b), d + 5);
    assert Spaces(s, b, c) && HasEqualsEquals(s, c) && Spaces(s, c + 2, d) && HasFalse(s, d);
  }

  lemma FalseComparisonFromShape(s: string, i: nat, w: Span, c: nat, d: nat)
    requires i <= |s| && w.from == i && IsWordSpan(s, w)
    requires Spaces(s, w.to, c) && HasEqualsEquals(s, c) && Spaces(s, c + 2, d) && HasFalse(s, d)
    ensures FalseComparisonAt(s, i) == Some((w, d + 5))
  {
    if w.to < c {
      WordCharIsNotSpace(s[w.to]);
    }
    WordRunEnd(s, w);
    RunEndAt(s, w.to, c, SpaceChars);
    RunEndAt(s, c + 2, d, SpaceChars);
  }

  /** `\s*&&\s*` followed by a second comparison and `)` at x: the word and the match's end. */
  function SecondFalseComparisonAt(s: string, x: nat): (r: Option<(Span, nat)>)
    requires x <= |s|
    ensures r.Some? ==> x < r.value.0.from && r.value.0.to < r.value.1 <= |s|
    ensures r.Some? ==> IsDelimitedWord(s, r.value.0) && HasChar(s, r.value.1 - 1, ')')
  {
    var e := RunEnd(s, x, SpaceChars);
    if !HasAndAnd(s, e) then None
    else
      var f := RunEnd(s, e + 2, SpaceChars);
      match FalseComparisonAt(s, f)
      case None => None
      case Some((second, y)) =>
        if !HasChar(s, y, ')') then None
        else
          RunLast(s, e + 2, SpaceChars);
          Some((second, y + 1))
  }

  /** Optional white space, `&&`, optional white space, the second comparison, and `)` at z - 1. */
  ghost predicate SecondFalseComparisonShape(s: string, x: nat, w: Span, z: nat) {
    0 < z && HasChar(s, z - 1, ')')
    && exists e: nat :: Spaces(s, x, e) && HasAndAnd(s, e) && Spaces(s, e + 2, w.from)
         && FalseComparisonShape(s, w.from, w, z - 1)
  }

  lemma SecondFalseComparisonAtIff(s: string, x: nat, w: Span, z: nat)
    requires x <= |s|
    ensures SecondFalseComparisonAt(s, x) == Some((w, z)) <==> SecondFalseComparisonShape(s, x, w, z)
  {
    if SecondFalseComparisonAt(s, x) == Some((w, z)) {
      SecondFalseComparisonShapeOfMatch(s, x);
    }
    if SecondFalseComparisonShape(s, x, w, z) {
      var e: nat :| Spaces(s, x, e) && HasAndAnd(s, e) && Spaces(s, e + 2, w.from)
        && FalseComparisonShape(s, w.from, w, z - 1);
      FalseComparisonAtIff(s, w.from, w, z - 1);
      SecondFalseComparisonFromShape(s, x, e, w, z);
    }
  }

  lemma SecondFalseComparisonShapeOfMatch(s: string, x: nat)
    requires x <= |s| && SecondFalseComparisonAt(s, x).Some?
    ensures SecondFalseComparisonShape(s, x, SecondFalseComparisonAt(s, x).value.0, SecondFalseComparisonAt(s, x).value.1)
  {
    var e := RunEnd(s, x, SpaceChars);
    var f := RunEnd(s, e + 2, SpaceChars);
    var (w, y) := FalseComparisonAt(s, f).value;
    FalseComparisonAtIff(s, f, w, y);
    RunEndIsRun(s, x, SpaceChars);
    RunEndIsRun(s, e + 2, SpaceChars);
    assert SecondFalseComparisonAt(s, x).value == (w, y + 1);
    assert Spaces(s, x, e) && HasAndAnd(s, e) && Spaces(s, e + 2, w.from);
  }

  lemma SecondFalseComparisonFromShape(s: string, x: nat, e: nat, w: Span, z: nat)
    requires x <= |s| && 0 < z && HasChar(s, z - 1, ')')
    requires Spaces(s, x, e) && HasAndAnd(s, e) && Spaces(s, e + 2, w.from)
    requires w.from <= |s| && FalseComparisonAt(s, w.from) == Some((w, z - 1))
    requires IsWordSpan(s, w)
    ensures SecondFalseComparisonAt(s, x) == Some((w, z))
  {
    SecondFalseComparisonRuns(s, x, e, w);
  }

  lemma SecondFalseComparisonRuns(s: string, x: nat, e: nat, w: Span)
    requires x <= |s| && Spaces(s, x, e) && HasAndAnd(s, e) && Spaces(s, e + 2, w.from) && IsWordSpan(s, w)
    ensures RunEnd(s, x, SpaceChars) == e && RunEnd(s, e + 2, SpaceChars) == w.from
  {
    RunEndAt(s, x, e, SpaceChars);
    SpacesBeforeWord(s, e + 2, w);
  }

  function FalseConjunctionAt(s: string, i: nat): (r: Option<Match>)
    requires i <= |s|
    ensures r.Some? ==> MatchedAt(r.value, s, i) && |r.value.groups| == 2
    ensures r.Some? ==> IsDelimitedWord(s, r.value.groups[0]) && IsDelimitedWord(s, r.value.groups[1])
    ensures r.Some? ==> s[i] == '(' && s[r.value.end - 1] == ')'
  {
    if !HasChar(s, i, '(') then None
    else match FalseComparisonAt(s, i + 1)
      case None => None
      case Some((first, y)) =>
        match SecondFalseComparisonAt(s, y)
        case None => None
        case Some((second, z)) =>
          FalseConjunctionBounds(s, i, first, y, second, z);
          Some(Match(i, z, [first, second]))
  }

  /** The facts that the two comparisons give make a two-group match between the parentheses. */
  lemma FalseConjunctionBounds(s: string, i: nat, first: Span, y: nat, second: Span, z: nat)
    requires HasChar(s, i, '(') && first.from == i + 1 && IsWordSpan(s, first) && first.to < y <= |s|
    requires first.to == |s| || !IsWordChar(s[first.to])
    requires y < second.from && second.to < z <= |s| && IsDelimitedWord(s, second) && HasChar(s, z - 1, ')')
    ensures var m := Match(i, z, [first, second]);
      MatchedAt(m, s, i) && IsDelimitedWord(s, first) && s[i] == '(' && s[z - 1] == ')'
  {
  }

  /** `(`, the first comparison, and the rest up to the closing `)`. */
  ghost predicate FalseConjunctionShape(s: string, i: nat, m: Match) {
    m.start == i && |m.groups| == 2 && HasChar(s, i, '(')
    && exists y: nat :: FalseComparisonShape(s, i + 1, m.groups[0], y)
         && SecondFalseComparisonShape(s, y, m.groups[1], m.end)
  }

  lemma FalseConjunctionAtIff(s: string, i: nat, m: Match)
    requires i <= |s|
    ensures FalseConjunctionAt(s, i) == Some(m) <==> FalseConjunctionShape(s, i, m)
  {
    if FalseConjunctionAt(s, i) == Some(m) {
      FalseConjunctionShapeOfMatch(s, i);
    }
    if FalseConjunctionShape(s, i, m) {
      var y: nat :| FalseComparisonShape(s, i + 1, m.groups[0], y)
        && SecondFalseComparisonShape(s, y, m.groups[1], m.end);
      FalseComparisonAtIff(s, i + 1, m.groups[0], y);
      SecondFalseComparisonAtIff(s, y, m.groups[1], m.end);
      FalseConjunctionFromParts(s, i, m.groups[0], y, m.groups[1], m.end);
      GroupsListed(m);
    }
  }

  lemma FalseConjunctionShapeOfMatch(s: string, i: nat)
    requires i <= |s| && FalseConjunctionAt(s, i).Some?
    ensures FalseConjunctionShape(s, i, FalseConjunctionAt(s, i).value)
  {
    var (w, y) := FalseComparisonAt(s, i + 1).value;
    FalseComparisonAtIff(s, i + 1, w, y);
    var (v, z) := SecondFalseComparisonAt(s, y).value;
    SecondFalseComparisonAtIff(s, y, v, z);
    assert FalseConjunctionAt(s, i).value == Match(i, z, [w, v]);
  }

  lemma FalseConjunctionFromParts(s: string, i: nat, first: Span, y: nat, second: Span, z: nat)
    requires i + 1 <= |s| && HasChar(s, i, '(')
    requires FalseComparisonAt(s, i + 1) == Some((first, y)) && SecondFalseComparisonAt(s, y) == Some((second, z))
    ensures FalseConjunctionAt(s, i) == Some(Match(i, z, [first, second]))
  {
  }

  /** The condition the simplifier is written for: both words are captured, and the match
   * runs from the `(` to the `)`. */
  lemma FalseConjunctionExample(s: string)
    requires s == "(flag == false && other == false)"
    ensures FalseConjunctionAt(s, 0) == Some(Match(0, 33, [Span(1, 5), Span(18, 23)]))
  {
    assert s == "(flag" + " == " + "false" + " && " + "other" + " == " + "false" + ")";
    FalseConjunctionExampleSteps(s);
  }

  /** The steps of the example, on the text cut into pieces, which keeps the verifier's
   * reasoning about each position short. */
  lemma FalseConjunctionExampleSteps(s: string)
    requires s == "(flag" + " == " + "false" + " && " + "other" + " == " + "false" + ")"
    ensures FalseConjunctionAt(s, 0) == Some(Match(0, 33, [Span(1, 5), Span(18, 23)]))
  {
    FalseConjunctionExampleFirst(s);
    FalseConjunctionExampleRest(s);
    assert HasChar(s, 0, '(');
    assert 0 + 1 <= |s|;
    assert FalseComparisonAt(s, 0 + 1) == Some((Span(1, 5), 14));
    assert SecondFalseComparisonAt(s, 14) == Some((Span(18, 23), 33));
    FalseConjunctionFromParts(s, 0, Span(1, 5), 14, Span(18, 23), 33);
  }

  lemma FalseConjunctionExampleFirst(s: string)
    requires s == "(flag" + " == " + "false" + " && " + "other" + " == " + "false" + ")"
    ensures FalseComparisonAt(s, 1) == Some((Span(1, 5), 14))
  {
    assert IsWordSpan(s, Span(1, 5)) && Spaces(s, 5, 6) && HasEqualsEquals(s, 6);
    assert Spaces(s, 8, 9) && HasFalse(s, 9);
    FalseComparisonFromShape(s, 1, Span(1, 5), 6, 9);
  }

  lemma FalseConjunctionExampleRest(s: string)
    requires s == "(flag" + " == " + "false" + " && " + "other" + " == " + "false" + ")"
    ensures SecondFalseComparisonAt(s, 14) == Some((Span(18, 23), 33))
  {
    FalseConjunctionExampleSecond(s);
    assert HasChar(s, 32, ')') && Spaces(s, 14, 15) && HasAndAnd(s, 15) && Spaces(s, 17, 18);
    SecondFalseComparisonFromShape(s, 14, 15, Span(18, 23), 33);
  }

  lemma FalseConjunctionExampleSecond(s: string)
    requires s == "(flag" + " == " + "false" + " && " + "other" + " == " + "false" + ")"
    ensures FalseComparisonAt(s, 18) == Some((Span(18, 23), 32)) && IsWordSpan(s, Span(18, 23))
  {
    assert IsWordSpan(s, Span(18, 23)) && Spaces(s, 23, 24) && HasEqualsEquals(s, 24);
    assert Spaces(s, 26, 27) && HasFalse(s, 27);
    FalseComparisonFromShape(s, 18, Span(18, 23), 24, 27);
  }

  // ---------------------------------------------------------------------------------------

  /** The patterns that the script runs globally, or whose first match it takes. */
  datatype Pattern =
    | ComplexityToken
    | WholeWord(name: string)
    | TypedDeclaration
    | TracedDeclaration
    | Assignment
    | ConstructorSignature
    | AutoProperty
    | MethodSignature
    | FalseConjunction

  /** The match the engine returns for pattern p started exactly at i, if any. */
  function MatchAt(p: Pattern, s: string, i: nat): (r: Option<Match>)
    requires i <= |s|
    ensures r.Some? ==> MatchedAt(r.value, s, i)
  {
    match p
    case ComplexityToken => ComplexityTokenAt(s, i)
    case WholeWord(name) => WholeWordAt(s, i, name)
    case TypedDeclaration => TypedDeclarationAt(s, i)
    case TracedDeclaration => TracedDeclarationAt(s, i)
    case Assignment => AssignmentAt(s, i)
    case ConstructorSignature => ConstructorSignatureAt(s, i)
    case AutoProperty => AutoPropertyAt(s, i)
    case MethodSignature => MethodSignatureAt(s, i)
    case FalseConjunction => FalseConjunctionAt(s, i)
  }

  /** What the engine finds when it tries p at each position of s, the end of s included. */
  function Attempts(p: Pattern, s: string): (a: seq<Option<Match>>)
    ensures |a| == |s| + 1
    ensures forall i :: 0 <= i <= |s| ==> a[i] == MatchAt(p, s, i)
  {
    seq(|s| + 1, i requires 0 <= i <= |s| => MatchAt(p, s, i))
  }
}
