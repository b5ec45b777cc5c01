/**
 * The boilerplate summary: the names captured by `public\s+(\w+)\s*\(` (listed as
 * constructors or methods), then the names captured by
 * `public\s+\w+\s+(\w+)\s*{\s*get;\s*set;\s*}` (listed as properties), at most eight in all.
 */
module BoilerplateSummary {
  import opened Wrappers
  import opened Text
  import opened Patterns
  import opened Scan

  /** A summary row: a constructor or method, or an auto-property, by name. */
  datatype Item = MethodItem(name: string) | PropertyItem(name: string)

  const PausedMessage: string := "Summary paused."
  const EmptyMessage: string := "No boilerplate blocks detected."
  const MaxItems: nat := 8

  /**
   * The name a one-group match captures: the word that stands whole at the group's start.
   * Only one word does, so this pins the name down.
   */
  function CapturedName(text: string, m: Match): (name: string)
    requires |m.groups| == 1 && IsDelimitedWord(text, m.groups[0])
    ensures IsWord(name) && IsWholeWordAt(text, m.groups[0].from, name)
    ensures |name| == m.groups[0].to - m.groups[0].from
  {
    WordStretch(text, m.groups[0].from, m.groups[0].to);
    DelimitedWordIsWhole(text, m.groups[0]);
    GroupText(text, m.groups[0])
  }

  /** The constructor and method rows, in the order of the text. */
  function MethodItems(text: string): (items: seq<Item>)
    ensures var ms := Matches(ConstructorSignature, text);
      |items| == |ms| && forall k :: 0 <= k < |items| ==>
        items[k].MethodItem? && ConstructorSignatureAt(text, ms[k].start) == Some(ms[k])
        && IsWord(items[k].name) && IsWholeWordAt(text, ms[k].groups[0].from, items[k].name)
  {
    var ms := Matches(ConstructorSignature, text);
    seq(|ms|, k requires 0 <= k < |ms| => MethodItem(CapturedName(text, ms[k])))
  }

  /** The property rows, in the order of the text. */
  function PropertyItems(text: string): (items: seq<Item>)
    ensures var ms := Matches(AutoProperty, text);
      |items| == |ms| && forall k :: 0 <= k < |items| ==>
        items[k].PropertyItem? && AutoPropertyAt(text, ms[k].start) == Some(ms[k])
        && IsWord(items[k].name) && IsWholeWordAt(text, ms[k].groups[0].from, items[k].name)
  {
    var ms := Matches(AutoProperty, text);
    seq(|ms|, k requires 0 <= k < |ms| => PropertyItem(CapturedName(text, ms[k])))
  }

  /** `buildBoilerplateSummary()`. */
  function Summary(text: string, enabled: bool): (p: Panel<Item>)
    ensures !enabled ==> p == Sentinel(PausedMessage)
    ensures enabled ==> (p.Sentinel? <==> MethodItems(text) == [] && PropertyItems(text) == [])
    ensures enabled && p.Sentinel? ==> p.message == EmptyMessage
    ensures p.Listed? ==> var all := MethodItems(text) + PropertyItems(text);
      |p.items| == Min(MaxItems, |all|) && p.items == all[..|p.items|]
  {
    if !enabled then Sentinel(PausedMessage)
    else ShowOrSentinel(Take(MethodItems(text) + PropertyItems(text), MaxItems), EmptyMessage)
  }

  /** Row k is a constructor or method exactly when k is below the number of constructor and method matches. */
  lemma SummaryLayout(text: string, enabled: bool, k: nat)
    requires Summary(text, enabled).Listed? && k < |Summary(text, enabled).items|
    ensures Summary(text, enabled).items[k].MethodItem? <==> k < |MethodItems(text)|
  {
    var methods := MethodItems(text);
    var properties := PropertyItems(text);
    KindsSplit(methods, properties, Summary(text, enabled).items, k);
  }

  /** In a prefix of methods followed by properties, the kind of a row tells which part it came from. */
  lemma KindsSplit(methods: seq<Item>, properties: seq<Item>, items: seq<Item>, k: nat)
    requires forall i :: 0 <= i < |methods| ==> methods[i].MethodItem?
    requires forall i :: 0 <= i < |properties| ==> properties[i].PropertyItem?
    requires |items| <= |methods + properties| && items == (methods + properties)[..|items|]
    requires k < |items|
    ensures items[k].MethodItem? <==> k < |methods|
  {
    if k >= |methods| {
      assert items[k] == properties[k - |methods|];
    }
  }

  /** Constructors and methods come before properties. */
  lemma MethodsFirst(text: string, enabled: bool, j: nat, k: nat)
    requires Summary(text, enabled).Listed? && j < k < |Summary(text, enabled).items|
    requires Summary(text, enabled).items[k].MethodItem?
    ensures Summary(text, enabled).items[j].MethodItem?
  {
    SummaryLayout(text, enabled, k);
    SummaryLayout(text, enabled, j);
  }

  /**
   * A member with a return type, such as `public int F(`, is not a constructor or method
   * row: after the type word the pattern wants `(` and finds the member's name.
   */
  lemma TypedMemberNotListed(s: string, i: nat)
    requires i <= |s| && TypedMemberHeadAt(s, i).Some?
    ensures ConstructorSignatureAt(s, i).None?
  {
    var a := i + 6;
    var b := RunEnd(s, a, SpaceChars);
    var c := RunEnd(s, b, WordChars);
    var d := RunEnd(s, c, SpaceChars);
    var e := RunEnd(s, d, WordChars);
    assert d < e;
    assert IsWordChar(s[d]);
  }
}
