/** Keeping the first occurrence of everything, in order. */
module Dedupe {
  import opened Common

  /** acc, followed by what ts adds to it. */
  function Merge<T(==)>(acc: seq<T>, ts: seq<T>): seq<T>
    decreases ts
  {
    if ts == [] then acc
    else Merge(if ts[0] in acc then acc else acc + [ts[0]], ts[1..])
  }

  ghost predicate Distinct<T>(s: seq<T>) {
    forall i, j :: 0 <= i < j < |s| ==> s[i] != s[j]
  }

  ghost function FirstAt<T>(s: seq<T>, x: T): (i: nat)
    requires x in s
    ensures i < |s| && s[i] == x && forall k :: 0 <= k < i ==> s[k] != x
  {
    if s[0] == x then 0 else 1 + FirstAt(s[1..], x)
  }

  lemma {:induction false} MergeConcat<T>(acc: seq<T>, a: seq<T>, b: seq<T>)
    ensures Merge(acc, a + b) == Merge(Merge(acc, a), b)
    decreases a
  {
    if a == [] {
      assert a + b == b;
    } else {
      assert (a + b)[1..] == a[1..] + b;
      MergeConcat(if a[0] in acc then acc else acc + [a[0]], a[1..], b);
    }
  }

  lemma MergeOne<T>(acc: seq<T>, a: seq<T>, x: T)
    ensures Merge(acc, a + [x]) == if x in Merge(acc, a) then Merge(acc, a) else Merge(acc, a) + [x]
  {
    MergeConcat(acc, a, [x]);
    assert [x][1..] == [];
  }

  lemma {:induction false} MergeGrows<T>(acc: seq<T>, ts: seq<T>)
    ensures acc <= Merge(acc, ts)
    ensures forall x :: x in Merge(acc, ts) <==> x in acc || x in ts
    ensures Distinct(acc) ==> Distinct(Merge(acc, ts))
    decreases ts
  {
    if ts != [] {
      var next := if ts[0] in acc then acc else acc + [ts[0]];
      MergeGrows(next, ts[1..]);
      assert forall x :: x in ts <==> x == ts[0] || x in ts[1..];
    }
  }

  // Different elements that all occur in s are at most as many as s has.
  lemma DistinctFits<T>(a: seq<T>, s: seq<T>)
    requires Distinct(a) && forall i :: 0 <= i < |a| ==> a[i] in s
    ensures |a| <= |s|
  {
    var places := seq(|a|, i requires 0 <= i < |a| => FirstAt(s, a[i]));
    forall i, j | 0 <= i < j < |a| ensures places[i] != places[j] {
      assert s[places[i]] == a[i] && s[places[j]] == a[j];
    }
    Pigeonhole(places, |s|);
  }

  lemma FirstAtAppend<T>(s: seq<T>, x: T, y: T)
    requires y in s || y == x
    ensures FirstAt(s + [x], y) == if y in s then FirstAt(s, y) else |s|
  {
    var i := FirstAt(s + [x], y);
    assert (s + [x])[i] == y;
    assert forall k :: 0 <= k < |s| ==> (s + [x])[k] == s[k];
    if y in s {
      var k := FirstAt(s, y);
      assert (s + [x])[k] == y;
    }
  }

  // The elements of d stand in the order of their first occurrences in ts.
  ghost predicate InFirstOrder<T>(ts: seq<T>, d: seq<T>) {
    && (forall i :: 0 <= i < |d| ==> d[i] in ts)
    && (forall i, j :: 0 <= i < j < |d| ==> FirstAt(ts, d[i]) < FirstAt(ts, d[j]))
  }

  lemma FirstOrderAppend<T>(ts: seq<T>, d: seq<T>, x: T)
    requires InFirstOrder(ts, d)
    ensures InFirstOrder(ts + [x], d)
    ensures x !in ts ==> InFirstOrder(ts + [x], d + [x])
  {
    forall i | 0 <= i < |d| ensures FirstAt(ts + [x], d[i]) == FirstAt(ts, d[i]) < |ts| {
      FirstAtAppend(ts, x, d[i]);
    }
    FirstAtAppend(ts, x, x);
  }

  /** Merge([], ts) is the list of the different elements of ts by their first occurrence. */
  lemma {:induction false} MergeIsFirstOccurrences<T>(ts: seq<T>)
    ensures Distinct(Merge([], ts)) && InFirstOrder(ts, Merge([], ts))
    ensures forall x :: x in Merge([], ts) <==> x in ts
  {
    MergeGrows([], ts);
    if ts != [] {
      var init, x := ts[..|ts| - 1], ts[|ts| - 1];
      assert ts == init + [x];
      MergeOne([], init, x);
      MergeIsFirstOccurrences(init);
      FirstOrderAppend(init, Merge([], init), x);
    }
  }
}
