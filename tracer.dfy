/**
 * The declaration/usage tracer behind the flow overlay: it finds the typed declarations of
 * the text and links each of the first eight to later whole-word uses of its name. The
 * overlay draws one connector per link; the model returns the links.
 */
module DeclarationTracer {
  import opened Wrappers
  import opened Text
  import opened Patterns
  import opened Scan
  import opened LineIndex
  import opened WholeWords

  /** A connector: the traced name, the declaration's line, and the line and offset of the use. */
  datatype UsageLink = UsageLink(variable: string, declLine: nat, usageLine: nat, usageAt: nat)

  /** d is one of the matches the declaration scan can return. */
  predicate IsDeclaration(text: string, d: Match) {
    d.start <= |text| && TypedDeclarationAt(text, d.start) == Some(d)
  }

  /** Every match of `\b(?:int|var|bool|string|double)\s+(\w+)\s*=.*` in the text, in order. */
  function Declarations(text: string): (ds: seq<Match>)
    ensures ds == Matches(TypedDeclaration, text)
    ensures forall k :: 0 <= k < |ds| ==> IsDeclaration(text, ds[k])
    ensures forall k :: 0 < k < |ds| ==> ds[k - 1].end <= ds[k].start
  {
    var a := Attempts(TypedDeclaration, text);
    AttemptsIsTable(TypedDeclaration, text);
    var ds := MatchAll(a, 0);
    assert forall k :: 0 <= k < |ds| ==> a[ds[k].start] == Some(ds[k]);
    ds
  }

  /** No declaration is skipped: every place where the pattern matches lies inside a found one. */
  lemma DeclarationsCover(text: string, i: nat)
    requires i <= |text| && TypedDeclarationAt(text, i).Some?
    ensures exists k ::
      0 <= k < |Declarations(text)| && Declarations(text)[k].start <= i < Declarations(text)[k].end
  {
    assert MatchAt(TypedDeclaration, text, i).Some?;
    MatchesCover(TypedDeclaration, text, i);
    var ms := Matches(TypedDeclaration, text);
    var k :| 0 <= k < |ms| && ms[k].start <= i < ms[k].end;
    assert Declarations(text)[k] == ms[k];
  }

  /** The name a declaration introduces, its first group. */
  function DeclaredName(text: string, d: Match): (name: string)
    requires IsDeclaration(text, d)
    ensures IsWord(name) && IsWholeWordAt(text, d.groups[0].from, name)
  {
    WordStretch(text, d.groups[0].from, d.groups[0].to);
    GroupText(text, d.groups[0])
  }

  /** The whole-word occurrences of a declaration's name, in the whole text. */
  function NameOccurrences(text: string, d: Match): (occ: seq<Match>)
    requires IsDeclaration(text, d)
    ensures |occ| >= 1
    ensures exists k :: 0 <= k < |occ| && occ[k].start == d.groups[0].from
  {
    var name := DeclaredName(text, d);
    OccurrencesComplete(text, name, d.groups[0].from);
    Occurrences(text, name)
  }

  /** The links of one declaration: `occurrences.slice(1, 4)`, each joined to the declaration's line. */
  function LinksOf(text: string, d: Match): (links: seq<UsageLink>)
    requires IsDeclaration(text, d)
  {
    LinksTo(text, DeclaredName(text, d), LineNumber(text, d.start), Slice(NameOccurrences(text, d), 1, 4))
  }

  /** One link from the declaration's line to each of the given uses, in order. */
  function LinksTo(text: string, name: string, declLine: nat, uses: seq<Match>): (links: seq<UsageLink>)
    ensures |links| == |uses|
  {
    seq(|uses|, k requires 0 <= k < |uses| =>
      UsageLink(name, declLine, LineNumber(text, uses[k].start), uses[k].start))
  }

  /** Each declaration gets at most three links; a name that occurs once gets none. */
  lemma LinksOfCount(text: string, d: Match)
    requires IsDeclaration(text, d)
    ensures var n := |NameOccurrences(text, d)|;
      |LinksOf(text, d)| == (if n == 1 then 0 else Min(4, n) - 1)
    ensures |LinksOf(text, d)| <= 3
  {
  }

  /** The links lead to the 2nd, 3rd and 4th whole-word occurrences, never to the first. */
  lemma LinksOfTargets(text: string, d: Match, k: nat)
    requires IsDeclaration(text, d) && k < |LinksOf(text, d)|
    ensures var occ := NameOccurrences(text, d); var link := LinksOf(text, d)[k];
      k + 1 < |occ| && link.usageAt == occ[k + 1].start && link.usageAt > occ[0].start
  {
    var occ := NameOccurrences(text, d);
    StartsAscending(occ, 0, k + 1);
  }

  /** Every link joins the declaration's one-based line to the line of a whole-word use of its name. */
  lemma LinksOfLines(text: string, d: Match, k: nat)
    requires IsDeclaration(text, d) && k < |LinksOf(text, d)|
    ensures var link := LinksOf(text, d)[k];
      link.variable == DeclaredName(text, d)
      && link.declLine == LineNumber(text, d.start)
      && link.usageLine == LineNumber(text, link.usageAt)
      && IsWholeWordAt(text, link.usageAt, link.variable)
  {
    var name := DeclaredName(text, d);
    var occ := NameOccurrences(text, d);
    assert occ == Occurrences(text, name);
    var uses := Slice(occ, 1, 4);
    assert uses[k] == occ[k + 1];
    assert IsWholeWordAt(text, occ[k + 1].start, name);
    assert LinksOf(text, d) == LinksTo(text, name, LineNumber(text, d.start), uses);
  }

  /** The scan's starts increase, so a later match starts after an earlier one. */
  lemma {:induction false} StartsAscending(occ: seq<Match>, j: nat, k: nat)
    requires forall k :: 0 < k < |occ| ==> occ[k - 1].start < occ[k].start
    requires j < k < |occ|
    ensures occ[j].start < occ[k].start
    decreases k - j
  {
    if j + 1 < k {
      StartsAscending(occ, j, k - 1);
    }
  }

  /** The index of a match in the scan follows the order of the starts. */
  lemma IndexOrder(occ: seq<Match>, a: nat, b: nat)
    requires forall k :: 0 < k < |occ| ==> occ[k - 1].start < occ[k].start
    requires a < |occ| && b < |occ| && occ[a].start < occ[b].start
    ensures a < b
  {
    if b < a {
      StartsAscending(occ, b, a);
    }
  }

  /**
   * When the only starts before p3 are g, p1 and p2, and g, p1, p2 and p3 all occur, the
   * scan begins with exactly these four.
   */
  lemma FirstFourStarts(occ: seq<Match>, g: nat, p1: nat, p2: nat, p3: nat, k0: nat, k1: nat, k2: nat, k3: nat)
    requires forall k :: 0 < k < |occ| ==> occ[k - 1].start < occ[k].start
    requires g < p1 < p2 < p3
    requires forall j :: 0 <= j < |occ| && occ[j].start < p3 ==>
      occ[j].start == g || occ[j].start == p1 || occ[j].start == p2
    requires k0 < |occ| && k1 < |occ| && k2 < |occ| && k3 < |occ|
    requires occ[k0].start == g && occ[k1].start == p1 && occ[k2].start == p2 && occ[k3].start == p3
    ensures 4 <= |occ| && occ[0].start == g && occ[1].start == p1 && occ[2].start == p2 && occ[3].start == p3
  {
    IndexOrder(occ, k0, k1);
    IndexOrder(occ, k1, k2);
    IndexOrder(occ, k2, k3);
    StartsAscending(occ, 0, k3);
    if 0 < k0 {
      StartsAscending(occ, 0, k0);
    }
    StartsAscending(occ, 0, 1);
    StartsAscending(occ, 1, k3);
    if 1 < k1 {
      StartsAscending(occ, 1, k1);
    }
    StartsAscending(occ, 1, 2);
    StartsAscending(occ, 2, k3);
    if 2 < k2 {
      StartsAscending(occ, 2, k2);
    }
    StartsAscending(occ, 2, 3);
    if 3 < k3 {
      StartsAscending(occ, 3, k3);
    }
  }

  /**
   * A declaration whose name occurs as a whole word next at p1, p2 and p3, and nowhere else
   * before p3, gets exactly three links, one to each of these uses in order.
   */
  lemma LinksOfFirstUses(text: string, d: Match, p1: nat, p2: nat, p3: nat)
    requires IsDeclaration(text, d)
    requires d.groups[0].from < p1 < p2 < p3
    requires var name := DeclaredName(text, d);
      IsWholeWordAt(text, p1, name) && IsWholeWordAt(text, p2, name) && IsWholeWordAt(text, p3, name)
    requires var name := DeclaredName(text, d);
      forall i :: 0 <= i < p3 && IsWholeWordAt(text, i, name) ==> i == d.groups[0].from || i == p1 || i == p2
    ensures var name := DeclaredName(text, d); var line := LineNumber(text, d.start);
      LinksOf(text, d) == [UsageLink(name, line, LineNumber(text, p1), p1),
                           UsageLink(name, line, LineNumber(text, p2), p2),
                           UsageLink(name, line, LineNumber(text, p3), p3)]
  {
    FirstUsesBeginOccurrences(text, DeclaredName(text, d), d.groups[0].from, p1, p2, p3);
    LinksOfFourOccurrences(text, d);
  }

  /** The occurrences of a word begin with its only four occurrences up to p3. */
  lemma FirstUsesBeginOccurrences(text: string, name: string, g: nat, p1: nat, p2: nat, p3: nat)
    requires IsWord(name) && g < p1 < p2 < p3
    requires IsWholeWordAt(text, g, name) && IsWholeWordAt(text, p1, name)
    requires IsWholeWordAt(text, p2, name) && IsWholeWordAt(text, p3, name)
    requires forall i :: 0 <= i < p3 && IsWholeWordAt(text, i, name) ==> i == g || i == p1 || i == p2
    ensures var occ := Occurrences(text, name);
      4 <= |occ| && occ[0].start == g && occ[1].start == p1 && occ[2].start == p2 && occ[3].start == p3
  {
    var occ := Occurrences(text, name);
    var k0 := OccurrenceIndex(text, name, g);
    var k1 := OccurrenceIndex(text, name, p1);
    var k2 := OccurrenceIndex(text, name, p2);
    var k3 := OccurrenceIndex(text, name, p3);
    forall j | 0 <= j < |occ| && occ[j].start < p3
      ensures occ[j].start == g || occ[j].start == p1 || occ[j].start == p2
    {
      assert IsWholeWordAt(text, occ[j].start, name);
    }
    FirstFourStarts(occ, g, p1, p2, p3, k0, k1, k2, k3);
  }

  /** Where in the scan a given whole-word occurrence is. */
  lemma OccurrenceIndex(text: string, name: string, i: nat) returns (k: nat)
    requires IsWord(name) && IsWholeWordAt(text, i, name)
    ensures k < |Occurrences(text, name)| && Occurrences(text, name)[k].start == i
  {
    OccurrencesComplete(text, name, i);
    k :| 0 <= k < |Occurrences(text, name)| && Occurrences(text, name)[k].start == i;
  }

  /** A name with four or more occurrences links to the second, third and fourth. */
  lemma LinksOfFourOccurrences(text: string, d: Match)
    requires IsDeclaration(text, d) && 4 <= |NameOccurrences(text, d)|
    ensures var name := DeclaredName(text, d); var line := LineNumber(text, d.start);
      var occ := NameOccurrences(text, d);
      LinksOf(text, d) == [UsageLink(name, line, LineNumber(text, occ[1].start), occ[1].start),
                           UsageLink(name, line, LineNumber(text, occ[2].start), occ[2].start),
                           UsageLink(name, line, LineNumber(text, occ[3].start), occ[3].start)]
  {
    var occ := NameOccurrences(text, d);
    assert Slice(occ, 1, 4) == [occ[1], occ[2], occ[3]];
    LinksToThree(text, DeclaredName(text, d), LineNumber(text, d.start), occ[1], occ[2], occ[3]);
  }

  lemma LinksToThree(text: string, name: string, declLine: nat, u1: Match, u2: Match, u3: Match)
    ensures LinksTo(text, name, declLine, [u1, u2, u3]) ==
      [UsageLink(name, declLine, LineNumber(text, u1.start), u1.start),
       UsageLink(name, declLine, LineNumber(text, u2.start), u2.start),
       UsageLink(name, declLine, LineNumber(text, u3.start), u3.start)]
  {
  }

  /** The links of each of the given declarations. */
  function LinkGroups(text: string, ds: seq<Match>): (groups: seq<seq<UsageLink>>)
    requires forall k :: 0 <= k < |ds| ==> IsDeclaration(text, ds[k])
    ensures |groups| == |ds|
    ensures forall k :: 0 <= k < |ds| ==> groups[k] == LinksOf(text, ds[k]) && |groups[k]| <= 3
  {
    forall k | 0 <= k < |ds| ensures |LinksOf(text, ds[k])| <= 3 {
      LinksOfCount(text, ds[k]);
    }
    seq(|ds|, k requires 0 <= k < |ds| => LinksOf(text, ds[k]))
  }

  /** The links of the given declarations, one declaration after the other. */
  function LinksOfAll(text: string, ds: seq<Match>): (links: seq<UsageLink>)
    requires forall k :: 0 <= k < |ds| ==> IsDeclaration(text, ds[k])
    ensures |links| <= 3 * |ds|
  {
    var groups := LinkGroups(text, ds);
    FlattenBound(groups, 3);
    Flatten(groups)
  }

  /** The links of one list of declarations, then another: the links come grouped by declaration. */
  lemma LinksOfAllAppend(text: string, a: seq<Match>, b: seq<Match>)
    requires forall k :: 0 <= k < |a| ==> IsDeclaration(text, a[k])
    requires forall k :: 0 <= k < |b| ==> IsDeclaration(text, b[k])
    ensures AllDeclarations(text, a + b)
    ensures LinksOfAll(text, a + b) == LinksOfAll(text, a) + LinksOfAll(text, b)
  {
    AppendDeclarations(text, a, b);
    var ga := LinkGroups(text, a);
    var gb := LinkGroups(text, b);
    var gab := LinkGroups(text, a + b);
    assert gab == ga + gb by {
      forall k | 0 <= k < |gab| ensures gab[k] == (ga + gb)[k] {
        if k < |a| {
          assert (a + b)[k] == a[k];
        } else {
          assert (a + b)[k] == b[k - |a|];
        }
      }
    }
    FlattenAppend(ga, gb);
  }

  /** Every element of ds is a declaration match of the text. */
  predicate AllDeclarations(text: string, ds: seq<Match>) {
    forall k :: 0 <= k < |ds| ==> IsDeclaration(text, ds[k])
  }

  lemma AppendDeclarations(text: string, a: seq<Match>, b: seq<Match>)
    requires AllDeclarations(text, a) && AllDeclarations(text, b)
    ensures AllDeclarations(text, a + b)
  {
    forall k | 0 <= k < |a + b| ensures IsDeclaration(text, (a + b)[k]) {
      if k < |a| {
        assert (a + b)[k] == a[k];
      } else {
        assert (a + b)[k] == b[k - |a|];
      }
    }
  }

  /** A single declaration contributes exactly its own links. */
  lemma LinksOfAllSingle(text: string, d: Match)
    requires IsDeclaration(text, d)
    ensures LinksOfAll(text, [d]) == LinksOf(text, d)
  {
    var groups := LinkGroups(text, [d]);
    assert groups[0] == LinksOf(text, d);
    assert groups == [groups[0]];
    FlattenSingle(groups[0]);
  }

  /** A link is drawn exactly when it is a link of one of the declarations. */
  lemma LinksOfAllMembers(text: string, ds: seq<Match>, l: UsageLink)
    requires forall k :: 0 <= k < |ds| ==> IsDeclaration(text, ds[k])
    ensures l in LinksOfAll(text, ds) <==> exists k :: 0 <= k < |ds| && l in LinksOf(text, ds[k])
  {
    var groups := LinkGroups(text, ds);
    FlattenMembers(groups, l);
    if exists k :: 0 <= k < |ds| && l in LinksOf(text, ds[k]) {
      var k :| 0 <= k < |ds| && l in LinksOf(text, ds[k]);
      assert l in groups[k];
    }
  }

  /** The declarations the overlay traces: at most the first 8. */
  function TracedDeclarations(text: string): (ds: seq<Match>)
    ensures |ds| == Min(8, |Declarations(text)|) && ds == Declarations(text)[..|ds|]
    ensures forall k :: 0 <= k < |ds| ==> IsDeclaration(text, ds[k])
  {
    Take(Declarations(text), 8)
  }

  /** The connectors of the flow overlay; none when the overlay is switched off. */
  function FlowLinks(text: string, enabled: bool): (links: seq<UsageLink>)
    ensures !enabled ==> links == []
    ensures enabled ==> links == LinksOfAll(text, TracedDeclarations(text))
    ensures |links| <= 24
  {
    if !enabled then [] else LinksOfAll(text, TracedDeclarations(text))
  }

  /** With the overlay on, a connector is drawn exactly for each link of a traced declaration. */
  lemma FlowLinksMembers(text: string, l: UsageLink)
    ensures var ds := TracedDeclarations(text);
      l in FlowLinks(text, true) <==> exists k :: 0 <= k < |ds| && l in LinksOf(text, ds[k])
  {
    LinksOfAllMembers(text, TracedDeclarations(text), l);
  }

  /**
   * The overlay on a declaration followed by three uses of its name, one per line: three
   * connectors from line 1, to lines 2, 3 and 4.
   */
  lemma FlowLinksExample(text: string)
    requires text == "int total = 0;\ntotal += 1;\ntotal += 2;\ntotal += 3;"
    ensures FlowLinks(text, true) ==
      [UsageLink("total", 1, 2, 15), UsageLink("total", 1, 3, 27), UsageLink("total", 1, 4, 39)]
  {
    assert text == "int total = 0;" + "\n" + "total += 1;" + "\n" + "total += 2;" + "\n" + "total += 3;";
    FlowLinksExampleSteps(text);
  }

  // The steps of the example. The text is cut into its lines, which keeps the verifier's
  // reasoning about each position short.

  lemma FlowLinksExampleSteps(text: string)
    requires text == "int total = 0;" + "\n" + "total += 1;" + "\n" + "total += 2;" + "\n" + "total += 3;"
    ensures FlowLinks(text, true) ==
      [UsageLink("total", 1, 2, 15), UsageLink("total", 1, 3, 27), UsageLink("total", 1, 4, 39)]
  {
    var d := Match(0, 14, [Span(4, 9)]);
    ExampleDeclarations(text);
    assert TracedDeclarations(text) == [d];
    LinksOfAllSingle(text, d);
    ExampleName(text);
    ExampleUses(text);
    LinksOfFirstUses(text, d, 15, 27, 39);
    ExampleLines(text);
  }

  lemma ExampleDeclarations(text: string)
    requires text == "int total = 0;" + "\n" + "total += 1;" + "\n" + "total += 2;" + "\n" + "total += 3;"
    ensures Declarations(text) == [Match(0, 14, [Span(4, 9)])]
  {
    var d := Match(0, 14, [Span(4, 9)]);
    ExampleDeclaration(text);
    ExampleNoFurtherDeclaration(text);
    var a := Attempts(TypedDeclaration, text);
    AttemptsIsTable(TypedDeclaration, text);
    MatchAllSingle(a, 0, d);
  }

  lemma ExampleDeclaration(text: string)
    requires text == "int total = 0;" + "\n" + "total += 1;" + "\n" + "total += 2;" + "\n" + "total += 3;"
    ensures TypedDeclarationAt(text, 0) == Some(Match(0, 14, [Span(4, 9)]))
  {
    assert IsWordBoundary(text, 0) && text[0..3] == "int";
    assert Spaces(text, 3, 4) && IsWordSpan(text, Span(4, 9)) && Spaces(text, 9, 10) && HasChar(text, 10, '=');
    assert AllInClass(text, 11, 14, LineChars) && IsLineTerminator(text[14]);
    TypedDeclarationShapeFromParts(text, 0, 3, Span(4, 9), 10, 14);
    TypedDeclarationFromShape(text, 0, Match(0, 14, [Span(4, 9)]));
  }

  lemma ExampleName(text: string)
    requires text == "int total = 0;" + "\n" + "total += 1;" + "\n" + "total += 2;" + "\n" + "total += 3;" && IsDeclaration(text, Match(0, 14, [Span(4, 9)]))
    ensures DeclaredName(text, Match(0, 14, [Span(4, 9)])) == "total"
  {
    assert text[4..9] == "total";
  }

  lemma ExampleNoFurtherDeclaration(text: string)
    requires text == "int total = 0;" + "\n" + "total += 1;" + "\n" + "total += 2;" + "\n" + "total += 3;"
    ensures forall i :: 14 <= i <= |text| ==> TypedDeclarationAt(text, i).None?
  {
    forall i | 14 <= i <= |text| ensures TypedDeclarationAt(text, i).None? {
      if TypedDeclarationAt(text, i).Some? {
        var (a, name, d) := DeclarationHeadAt(text, i).value;
        var t := text[i..a];
        assert t in DeclarationTypes && text[i] == t[0];
        ExampleNoTypeInitial(text);
      }
    }
  }

  lemma ExampleNoTypeInitial(text: string)
    requires text == "int total = 0;" + "\n" + "total += 1;" + "\n" + "total += 2;" + "\n" + "total += 3;"
    ensures forall i :: 14 <= i < |text| ==> text[i] !in "ivbsd"
  {
  }

  lemma ExampleUses(text: string)
    requires text == "int total = 0;" + "\n" + "total += 1;" + "\n" + "total += 2;" + "\n" + "total += 3;"
    ensures IsWholeWordAt(text, 15, "total") && IsWholeWordAt(text, 27, "total") && IsWholeWordAt(text, 39, "total")
    ensures forall i :: 0 <= i < 39 && IsWholeWordAt(text, i, "total") ==> i == 4 || i == 15 || i == 27
  {
    assert IsWholeWordAt(text, 15, "total") && IsWholeWordAt(text, 27, "total") && IsWholeWordAt(text, 39, "total") by {
      assert text[15..20] == "total" && text[27..32] == "total" && text[39..44] == "total";
    }
    forall i | 0 <= i < 39 && IsWholeWordAt(text, i, "total") ensures i == 4 || i == 15 || i == 27 {
      HasAtChar(text, i, "total", 0);
      HasAtChar(text, i, "total", 1);
      ExampleWordStarts(text);
    }
  }

  lemma ExampleWordStarts(text: string)
    requires text == "int total = 0;" + "\n" + "total += 1;" + "\n" + "total += 2;" + "\n" + "total += 3;"
    ensures forall i :: 0 <= i < 39 && text[i] == 't' && text[i + 1] == 'o' ==> i == 4 || i == 15 || i == 27
  {
  }

  lemma ExampleLines(text: string)
    requires text == "int total = 0;" + "\n" + "total += 1;" + "\n" + "total += 2;" + "\n" + "total += 3;"
    ensures LineNumber(text, 0) == 1 && LineNumber(text, 15) == 2
    ensures LineNumber(text, 27) == 3 && LineNumber(text, 39) == 4
  {
    var l1, l2, l3 := "int total = 0;", "total += 1;", "total += 2;";
    assert Before(text, 0) == [];
    assert Before(text, 15) == [] + l1 + "\n";
    assert Before(text, 27) == ([] + l1 + "\n") + l2 + "\n";
    assert Before(text, 39) == (([] + l1 + "\n") + l2 + "\n") + l3 + "\n";
    LineFeedsAfterLine([], l1);
    LineFeedsAfterLine([] + l1 + "\n", l2);
    LineFeedsAfterLine(([] + l1 + "\n") + l2 + "\n", l3);
  }

  /** A line and its line feed add one to the count of line feeds. */
  lemma LineFeedsAfterLine(prefix: string, line: string)
    requires '\n' !in line
    ensures CountChar(prefix + line + "\n", '\n') == CountChar(prefix, '\n') + 1
  {
    CountCharAppend(prefix + line, "\n", '\n');
    CountCharAppend(prefix, line, '\n');
    CountCharAbsent(line, '\n');
    assert "\n"[1..] == [];
  }
}
