/** Small value wrappers shared by the analyses. */
module Wrappers {

  datatype Option<+T> = None | Some(value: T)

  /** What a result panel shows: the computed items, or a fixed sentence when there are none. */
  datatype Panel<+T> = Listed(items: seq<T>) | Sentinel(message: string)

  /** The `items.join('') || '<li>…</li>'` idiom: an empty list falls back to the sentence. */
  function ShowOrSentinel<T>(items: seq<T>, message: string): (p: Panel<T>)
    ensures p.Sentinel? <==> items == []
    ensures p.Sentinel? ==> p.message == message
    ensures p.Listed? ==> p.items == items
  {
    if items == [] then Sentinel(message) else Listed(items)
  }

  function Min(a: int, b: int): int { if a <= b then a else b }

  /** `xs.slice(0, n)` for a non-negative n. */
  function Take<T>(xs: seq<T>, n: nat): (r: seq<T>)
    ensures |r| == Min(n, |xs|)
    ensures r == xs[..|r|]
  {
    if |xs| <= n then xs else xs[..n]
  }

  /** `xs.slice(from, to)` for 0 <= from <= to. */
  function Slice<T>(xs: seq<T>, from: nat, to: nat): (r: seq<T>)
    requires from <= to
    ensures |r| == if |xs| <= from then 0 else Min(to, |xs|) - from
    ensures forall k :: 0 <= k < |r| ==> r[k] == xs[from + k]
  {
    if |xs| <= from then [] else xs[from..Min(to, |xs|)]
  }

  /** The groups one after the other, as a `forEach` that pushes each group's items builds them. */
  function Flatten<T>(groups: seq<seq<T>>): seq<T> {
    if groups == [] then [] else groups[0] + Flatten(groups[1..])
  }

  lemma {:induction false} FlattenAppend<T>(a: seq<seq<T>>, b: seq<seq<T>>)
    ensures Flatten(a + b) == Flatten(a) + Flatten(b)
  {
    if a == [] {
      assert a + b == b;
    } else {
      assert (a + b)[0] == a[0] && (a + b)[1..] == a[1..] + b;
      FlattenAppend(a[1..], b);
    }
  }

  lemma FlattenSingle<T>(g: seq<T>)
    ensures Flatten([g]) == g
  {
    assert [g][1..] == [];
  }

  /** An item is in the flattened list exactly when it is in one of the groups. */
  lemma FlattenMembers<T>(groups: seq<seq<T>>, x: T)
    ensures x in Flatten(groups) <==> exists k :: 0 <= k < |groups| && x in groups[k]
  {
    if x in Flatten(groups) {
      var k := FlattenSource(groups, x);
    }
    if exists k :: 0 <= k < |groups| && x in groups[k] {
      var k :| 0 <= k < |groups| && x in groups[k];
      FlattenKeeps(groups, k, x);
    }
  }

  lemma {:induction false} FlattenSource<T>(groups: seq<seq<T>>, x: T) returns (k: nat)
    requires x in Flatten(groups)
    ensures k < |groups| && x in groups[k]
  {
    if x in groups[0] {
      k := 0;
    } else {
      var j := FlattenSource(groups[1..], x);
      k := j + 1;
    }
  }

  lemma {:induction false} FlattenKeeps<T>(groups: seq<seq<T>>, k: nat, x: T)
    requires k < |groups| && x in groups[k]
    ensures x in Flatten(groups)
  {
    if k > 0 {
      assert groups[1..][k - 1] == groups[k];
      FlattenKeeps(groups[1..], k - 1, x);
    }
  }

  /** Groups of at most n items flatten to at most n items per group. */
  lemma {:induction false} FlattenBound<T>(groups: seq<seq<T>>, n: nat)
    requires forall k :: 0 <= k < |groups| ==> |groups[k]| <= n
    ensures |Flatten(groups)| <= n * |groups|
  {
    if groups != [] {
      var rest := groups[1..];
      assert forall k :: 0 <= k < |rest| ==> |rest[k]| <= n by {
        forall k | 0 <= k < |rest| ensures |rest[k]| <= n {
          assert rest[k] == groups[k + 1];
        }
      }
      FlattenBound(rest, n);
    }
  }

  /** The elements of xs that keep holds for, in order: `filter`. */
  function Filter<T(!new)>(xs: seq<T>, keep: T -> bool): (r: seq<T>)
    ensures |r| <= |xs|
    ensures forall x :: x in r <==> x in xs && keep(x)
  {
    if xs == [] then []
    else if keep(xs[0]) then [xs[0]] + Filter(xs[1..], keep)
    else Filter(xs[1..], keep)
  }

  lemma FilterSingle<T(!new)>(x: T, keep: T -> bool)
    ensures Filter([x], keep) == if keep(x) then [x] else []
  {
    assert [x][1..] == [];
  }

  lemma {:induction false} FilterAppend<T(!new)>(a: seq<T>, b: seq<T>, keep: T -> bool)
    ensures Filter(a + b, keep) == Filter(a, keep) + Filter(b, keep)
  {
    if a == [] {
      assert a + b == b;
    } else {
      assert (a + b)[0] == a[0] && (a + b)[1..] == a[1..] + b;
      FilterAppend(a[1..], b, keep);
    }
  }

  lemma {:induction false} FilterIdempotent<T(!new)>(xs: seq<T>, keep: T -> bool)
    ensures Filter(Filter(xs, keep), keep) == Filter(xs, keep)
  {
    if xs != [] {
      FilterIdempotent(xs[1..], keep);
      if keep(xs[0]) {
        var rest := Filter(xs[1..], keep);
        assert ([xs[0]] + rest)[1..] == rest;
      }
    }
  }

  lemma {:induction false} FilterKeepsAll<T(!new)>(xs: seq<T>, keep: T -> bool)
    requires forall k :: 0 <= k < |xs| ==> keep(xs[k])
    ensures Filter(xs, keep) == xs
  {
    if xs != [] {
      var rest := xs[1..];
      assert forall k :: 0 <= k < |rest| ==> keep(rest[k]) by {
        forall k | 0 <= k < |rest| ensures keep(rest[k]) {
          assert rest[k] == xs[k + 1];
        }
      }
      FilterKeepsAll(rest, keep);
      assert keep(xs[0]);
      assert xs == [xs[0]] + rest;
    }
  }
}
