/**
 * The usage heatmap: the first `public <type> <name>(` in the text picks a method; the
 * number of whole-word occurrences of its name sets the heat level of the editor.
 */
module Heatmap {
  import opened Wrappers
  import opened Text
  import opened Patterns
  import opened Scan
  import opened WholeWords

  /** What the heatmap does to the editor's heat classes. */
  datatype HeatAction =
    | ClearHeat              // switched off: all heat classes removed
    | KeepHeat               // no method found: the classes are left as they were
    | SetHeat(level: nat)    // the classes replaced by the one for this level

  /** `text.match(/public\s+\w+\s+(\w+)\s*\(/)`: the leftmost match, if any. */
  function FirstMethod(text: string): (r: Option<Match>)
    ensures r.Some? ==> r.value.start <= |text| && MethodSignatureAt(text, r.value.start) == r
    ensures r.Some? ==> forall i :: 0 <= i < r.value.start ==> MatchAt(MethodSignature, text, i).None?
    ensures r.None? ==> forall i :: 0 <= i <= |text| ==> MatchAt(MethodSignature, text, i).None?
  {
    FirstMatch(MethodSignature, text)
  }

  /** The name of the method the heatmap follows. */
  function MethodName(text: string, m: Match): (name: string)
    requires m.start <= |text| && MethodSignatureAt(text, m.start) == Some(m)
    ensures IsWord(name) && IsWholeWordAt(text, m.groups[0].from, name)
  {
    WordStretch(text, m.groups[0].from, m.groups[0].to);
    GroupText(text, m.groups[0])
  }

  /** `hits > 6 ? 'heat-3' : hits > 3 ? 'heat-2' : 'heat-1'`. */
  function Level(hits: nat): (level: nat)
    ensures level == 3 <==> hits > 6
    ensures level == 2 <==> 4 <= hits <= 6
    ensures level == 1 <==> hits <= 3
  {
    if hits > 6 then 3 else if hits > 3 then 2 else 1
  }

  /** `applyHeatmap()`. */
  function ApplyHeatmap(text: string, enabled: bool): (action: HeatAction)
    ensures !enabled ==> action == ClearHeat
    ensures enabled ==> (action == KeepHeat <==> FirstMethod(text).None?)
    ensures action.SetHeat? ==> 1 <= action.level <= 3
  {
    if !enabled then ClearHeat
    else match FirstMethod(text)
      case None => KeepHeat
      case Some(m) => SetHeat(Level(|Occurrences(text, MethodName(text, m))|))
  }

  /** The method's own name counts: the number of hits is never zero. */
  lemma HitsIncludeDeclaration(text: string)
    requires FirstMethod(text).Some?
    ensures var m := FirstMethod(text).value;
      |Occurrences(text, MethodName(text, m))| >= 1
  {
    var m := FirstMethod(text).value;
    OccurrencesComplete(text, MethodName(text, m), m.groups[0].from);
  }

  /** With the switch on and a method found, the level is the band of the method name's whole-word count. */
  lemma HeatOfFirstMethod(text: string)
    requires FirstMethod(text).Some?
    ensures var m := FirstMethod(text).value; var hits := |Occurrences(text, MethodName(text, m))|;
      ApplyHeatmap(text, true) == SetHeat(Level(hits))
      && (ApplyHeatmap(text, true).level == 3 <==> hits > 6)
      && (ApplyHeatmap(text, true).level == 1 <==> hits <= 3)
  {
  }
}
