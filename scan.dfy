/**
 * Running a pattern over a whole text: `exec` on a regex whose search resumes at a given
 * index, and the global scan behind `match(/.../g)`, `matchAll` and `replace(/.../g)`.
 * The engine tries the positions from the current index upwards and takes the first one
 * where the pattern matches; a global scan resumes at the end of each match. No pattern
 * of the script matches the empty string, so the scan never has to step over one.
 *
 * The scan works on the table of attempts (entry i: the match that starts at i, if any),
 * so that it holds for every pattern alike.
 */
module Scan {
  import opened Wrappers
  import opened Patterns

  /** A table of attempts: every match found at i starts at i and ends inside the text. */
  predicate IsTable(a: seq<Option<Match>>) {
    forall i :: 0 <= i < |a| && a[i].Some? ==> a[i].value.start == i < a[i].value.end < |a|
  }

  /** The attempts of any pattern form a table. */
  lemma AttemptsIsTable(p: Pattern, s: string)
    ensures IsTable(Attempts(p, s))
  {
    var a := Attempts(p, s);
    forall i | 0 <= i < |a| && a[i].Some? ensures a[i].value.start == i < a[i].value.end < |a| {
      assert MatchedAt(a[i].value, s, i);
    }
  }

  /** The leftmost match at or after position `from`. */
  function Exec(a: seq<Option<Match>>, from: nat): (r: Option<Match>)
    requires IsTable(a) && from < |a|
    ensures r.Some? ==> from <= r.value.start < |a| && a[r.value.start] == r
    ensures r.Some? ==> forall i :: from <= i < r.value.start ==> a[i].None?
    ensures r.None? ==> forall i :: from <= i < |a| ==> a[i].None?
    decreases |a| - from
  {
    if a[from].Some? then a[from]
    else if from + 1 == |a| then None
    else Exec(a, from + 1)
  }

  /** Every match of a global scan started at `from`, in order. */
  function MatchAll(a: seq<Option<Match>>, from: nat): (ms: seq<Match>)
    requires IsTable(a) && from < |a|
    ensures forall k :: 0 <= k < |ms| ==> from <= ms[k].start < ms[k].end < |a|
    ensures forall k :: 0 <= k < |ms| ==> a[ms[k].start] == Some(ms[k])
    ensures forall k :: 0 < k < |ms| ==> ms[k - 1].end <= ms[k].start
    ensures ms == [] <==> Exec(a, from).None?
    decreases |a| - from
  {
    match Exec(a, from)
    case None => []
    case Some(m) =>
      assert m.start < m.end < |a|;
      [m] + MatchAll(a, m.end)
  }

  /** `text.matchAll(p)`: every match of p in the text, leftmost first. */
  function Matches(p: Pattern, text: string): (ms: seq<Match>)
    ensures forall k :: 0 <= k < |ms| ==> ms[k].start <= |text| && MatchAt(p, text, ms[k].start) == Some(ms[k])
    ensures forall k :: 0 < k < |ms| ==> ms[k - 1].end <= ms[k].start
  {
    var a := Attempts(p, text);
    AttemptsIsTable(p, text);
    var ms := MatchAll(a, 0);
    assert forall k :: 0 <= k < |ms| ==> a[ms[k].start] == Some(ms[k]);
    ms
  }

  /**
   * Before the k-th match of p, back to the start of the text or the end of the previous
   * match, p matches nowhere.
   */
  lemma MatchesGap(p: Pattern, text: string, k: nat)
    requires k < |Matches(p, text)|
    ensures var ms := Matches(p, text); var f := if k == 0 then 0 else ms[k - 1].end;
      f <= ms[k].start && forall i :: f <= i < ms[k].start ==> MatchAt(p, text, i).None?
  {
    var a := Attempts(p, text);
    AttemptsIsTable(p, text);
    assert Matches(p, text) == MatchAll(a, 0);
    MatchAllGap(a, 0, k);
  }

  /** `text.match(p)` without the global flag: the leftmost match, if any. */
  function FirstMatch(p: Pattern, text: string): (r: Option<Match>)
    ensures r.Some? ==> r.value.start <= |text| && MatchAt(p, text, r.value.start) == r
    ensures r.Some? ==> forall i :: 0 <= i < r.value.start ==> MatchAt(p, text, i).None?
    ensures r.None? ==> forall i :: 0 <= i <= |text| ==> MatchAt(p, text, i).None?
  {
    var a := Attempts(p, text);
    AttemptsIsTable(p, text);
    Exec(a, 0)
  }

  /** Every position where p matches lies inside one of the matches `matchAll` returns. */
  lemma MatchesCover(p: Pattern, text: string, i: nat)
    requires i <= |text| && MatchAt(p, text, i).Some?
    ensures exists k :: 0 <= k < |Matches(p, text)| && Matches(p, text)[k].start <= i < Matches(p, text)[k].end
  {
    var a := Attempts(p, text);
    AttemptsIsTable(p, text);
    assert a[i] == MatchAt(p, text, i);
    MatchAllCovers(a, 0, i);
    assert Matches(p, text) == MatchAll(a, 0);
  }

  /** The scan misses no match: every position that has one is a found match's start or lies inside a found match. */
  lemma {:induction false} MatchAllCovers(a: seq<Option<Match>>, from: nat, i: nat)
    requires IsTable(a) && from <= i < |a| && a[i].Some?
    ensures exists k ::
      0 <= k < |MatchAll(a, from)| && MatchAll(a, from)[k].start <= i < MatchAll(a, from)[k].end
    decreases |a| - from
  {
    var ms := MatchAll(a, from);
    var m := Exec(a, from).value;
    assert ms[0] == m;
    if m.end <= i {
      MatchAllCovers(a, m.end, i);
      var rest := MatchAll(a, m.end);
      var k :| 0 <= k < |rest| && rest[k].start <= i < rest[k].end;
      assert ms[k + 1] == rest[k];
    }
  }

  /**
   * Between the place where the scan resumes (the start, or the end of the previous match)
   * and the k-th match, the pattern matches nowhere.
   */
  lemma {:induction false} MatchAllGap(a: seq<Option<Match>>, from: nat, k: nat)
    requires IsTable(a) && from < |a| && k < |MatchAll(a, from)|
    ensures var ms := MatchAll(a, from); var f := if k == 0 then from else ms[k - 1].end;
      f <= ms[k].start && forall i :: f <= i < ms[k].start ==> a[i].None?
    decreases |a| - from
  {
    var ms := MatchAll(a, from);
    var m := Exec(a, from).value;
    assert ms[0] == m;
    if k > 0 {
      var rest := MatchAll(a, m.end);
      MatchAllGap(a, m.end, k - 1);
      assert ms[k] == rest[k - 1];
      if k > 1 {
        assert ms[k - 1] == rest[k - 2];
      }
    }
  }

  /** A scan that meets one match and nothing after it returns just that match. */
  lemma MatchAllSingle(a: seq<Option<Match>>, from: nat, m: Match)
    requires IsTable(a) && from < |a| && a[from] == Some(m)
    requires forall i :: m.end <= i < |a| ==> a[i].None?
    ensures MatchAll(a, from) == [m]
  {
    assert m.end < |a|;
    assert MatchAll(a, m.end) == [];
  }

  /** Matches of a scan never overlap: each one ends before any later one starts. */
  lemma MatchAllOrdered(a: seq<Option<Match>>, from: nat, j: nat, k: nat)
    requires IsTable(a) && from < |a| && j < k < |MatchAll(a, from)|
    ensures MatchAll(a, from)[j].end <= MatchAll(a, from)[k].start
  {
    var ms := MatchAll(a, from);
    var i := k;
    while i > j + 1
      invariant j + 1 <= i <= k && ms[i - 1].end <= ms[k].start
    {
      i := i - 1;
    }
  }

  /** Where the scan moves on to after position `from`: past the match there, or one further. */
  function NextFrom(a: seq<Option<Match>>, from: nat): (next: nat)
    requires IsTable(a) && from < |a|
    ensures from < next <= |a|
    ensures next < |a| ==> MatchAll(a, from) == (if a[from].Some? then [a[from].value] else []) + MatchAll(a, next)
    ensures next == |a| ==> MatchAll(a, from) == []
  {
    if a[from].Some? then a[from].value.end else from + 1
  }

  /** One step of the split: if the scans agree from the next position on, they agree from `from`. */
  lemma SplitStep(a: seq<Option<Match>>, b: seq<Option<Match>>, from: nat, rest: seq<Match>)
    requires IsTable(a) && IsTable(b) && from < |b| - 1 && |b| <= |a| && a[from] == b[from]
    requires NextFrom(b, from) < |b|
    requires MatchAll(a, NextFrom(b, from)) == MatchAll(b, NextFrom(b, from)) + rest
    ensures MatchAll(a, from) == MatchAll(b, from) + rest
  {
    var next := NextFrom(b, from);
    assert NextFrom(a, from) == next;
    var head: seq<Match> := if b[from].Some? then [b[from].value] else [];
    Associate(head, MatchAll(b, next), rest);
  }

  lemma Associate(h: seq<Match>, x: seq<Match>, y: seq<Match>)
    ensures h + (x + y) == (h + x) + y
  {
  }

  /**
   * Two tables that agree below position n: the scan of the longer one is the scan of the
   * shorter, then the scan of the longer from n on. This is what a text and its prefix of
   * length n give when no match inside the prefix looks past it.
   */
  lemma {:induction false} MatchAllSplit(a: seq<Option<Match>>, b: seq<Option<Match>>, from: nat)
    requires IsTable(a) && IsTable(b) && from < |b| <= |a|
    requires forall i :: from <= i < |b| - 1 ==> a[i] == b[i]
    requires b[|b| - 1].None?
    ensures MatchAll(a, from) == MatchAll(b, from) + MatchAll(a, |b| - 1)
    decreases |b| - from
  {
    var next := NextFrom(b, from);
    if from == |b| - 1 {
      assert MatchAll(b, from) == [];
    } else {
      MatchAllSplit(a, b, next);
      SplitStep(a, b, from, MatchAll(a, |b| - 1));
    }
  }
}
