/**
 * Removing duplicates from a list while keeping the order in which each
 * element first appears.
 */
module Distinct {

  predicate NoDuplicates<T(==)>(s: seq<T>) {
    forall i, j :: 0 <= i < j < |s| ==> s[i] != s[j]
  }

  /** `s.index(x)`: the position of the first occurrence of `x` in `s`. */
  function FirstIndex<T(==)>(s: seq<T>, x: T): (r: nat)
    requires x in s
    ensures r < |s| && s[r] == x
    ensures forall j :: 0 <= j < r ==> s[j] != x
  {
    if s[0] == x then 0 else 1 + FirstIndex(s[1..], x)
  }

  /** `a` and `b` hold the same elements, disregarding order and repetition. */
  predicate SameElements<T(==)>(a: seq<T>, b: seq<T>) {
    && (forall i :: 0 <= i < |a| ==> a[i] in b)
    && (forall j :: 0 <= j < |b| ==> b[j] in a)
  }

  /**
   * Every element of `r` occurs in `s`, and `r` lists them by increasing
   * position of their first occurrence in `s`.
   */
  predicate InFirstOccurrenceOrder<T(==)>(r: seq<T>, s: seq<T>) {
    && (forall i :: 0 <= i < |r| ==> r[i] in s)
    && (forall i, j :: 0 <= i < j < |r| ==> FirstIndex(s, r[i]) < FirstIndex(s, r[j]))
  }

  /**
   * The distinct elements of `s` in first-occurrence order: one pass that
   * keeps an element only if it has not been kept before.
   */
  function Dedup<T(==)>(s: seq<T>): (r: seq<T>)
    ensures NoDuplicates(r)
    ensures SameElements(r, s)
    ensures InFirstOccurrenceOrder(r, s)
    decreases |s|
  {
    if |s| == 0 then []
    else
      var front := s[..|s| - 1];
      var x := s[|s| - 1];
      var d := Dedup(front);
      assert s == front + [x];
      DedupStep(front, x, d);
      if x in d then d else d + [x]
  }

  /** One step of the pass keeps the three properties of its result. */
  lemma DedupStep<T>(front: seq<T>, x: T, d: seq<T>)
    requires NoDuplicates(d) && SameElements(d, front) && InFirstOccurrenceOrder(d, front)
    ensures var r := if x in d then d else d + [x];
      NoDuplicates(r) && SameElements(r, front + [x]) && InFirstOccurrenceOrder(r, front + [x])
  {
    forall y | y in front
      ensures FirstIndex(front + [x], y) == FirstIndex(front, y)
    {
      FirstIndexOfPrefix(front, [x], y);
    }
    if x in d {
      DedupStepSeen(front, x, d);
    } else {
      DedupStepNew(front, x, d);
    }
  }

  lemma DedupStepSeen<T>(front: seq<T>, x: T, d: seq<T>)
    requires x in d
    requires SameElements(d, front) && InFirstOccurrenceOrder(d, front)
    requires forall y :: y in front ==> FirstIndex(front + [x], y) == FirstIndex(front, y)
    ensures SameElements(d, front + [x]) && InFirstOccurrenceOrder(d, front + [x])
  {
  }

  lemma DedupStepNew<T>(front: seq<T>, x: T, d: seq<T>)
    requires x !in d
    requires NoDuplicates(d) && SameElements(d, front) && InFirstOccurrenceOrder(d, front)
    requires forall y :: y in front ==> FirstIndex(front + [x], y) == FirstIndex(front, y)
    ensures NoDuplicates(d + [x]) && SameElements(d + [x], front + [x])
    ensures InFirstOccurrenceOrder(d + [x], front + [x])
  {
    var s, r := front + [x], d + [x];
    assert x !in front;
    assert FirstIndex(s, x) == |s| - 1;
    assert forall i :: 0 <= i < |d| ==> r[i] == d[i];
  }

  /** Appending one element keeps it exactly when it is new. */
  lemma DedupSnoc<T>(s: seq<T>, x: T)
    ensures Dedup(s + [x]) == if x in Dedup(s) then Dedup(s) else Dedup(s) + [x]
  {
    assert (s + [x])[..|s|] == s;
  }

  /** Appending elements does not move the first occurrence of one already present. */
  lemma FirstIndexOfPrefix<T>(a: seq<T>, b: seq<T>, y: T)
    requires y in a
    ensures FirstIndex(a + b, y) == FirstIndex(a, y)
  {
    var k := FirstIndex(a, y);
    assert (a + b)[k] == y;
    var m := FirstIndex(a + b, y);
    assert m <= k;
    assert a[m] == (a + b)[m];
  }

  /**
   * There is only one duplicate-free arrangement of a given set of elements
   * of `s` in first-occurrence order: sorting the distinct elements by
   * `s.index` can produce nothing but `Dedup(s)`.
   */
  lemma {:induction false} FirstOccurrenceOrderUnique<T>(a: seq<T>, b: seq<T>, s: seq<T>)
    requires NoDuplicates(a) && NoDuplicates(b)
    requires SameElements(a, b)
    requires InFirstOccurrenceOrder(a, s) && InFirstOccurrenceOrder(b, s)
    ensures a == b
    decreases |a|
  {
    if |a| != 0 {
      assert |b| > 0 by {
        assert a[0] in b;
      }
      SameFirst(a, b, s);
      SameElementsTail(a, b);
      TailKeepsOrder(a, s);
      TailKeepsOrder(b, s);
      FirstOccurrenceOrderUnique(a[1..], b[1..], s);
      assert a == [a[0]] + a[1..] && b == [b[0]] + b[1..];
    }
  }

  /** Both arrangements start with the element that occurs first in `s`. */
  lemma SameFirst<T>(a: seq<T>, b: seq<T>, s: seq<T>)
    requires |a| > 0 && |b| > 0
    requires NoDuplicates(b)
    requires SameElements(a, b)
    requires InFirstOccurrenceOrder(a, s) && InFirstOccurrenceOrder(b, s)
    ensures a[0] == b[0]
  {
    assert a[0] in b;
    var k :| 0 <= k < |b| && b[k] == a[0];
    assert b[0] in a;
    var m :| 0 <= m < |a| && a[m] == b[0];
  }

  /** The tail of a duplicate-free, first-occurrence-ordered list is one too. */
  lemma TailKeepsOrder<T>(a: seq<T>, s: seq<T>)
    requires |a| > 0
    requires NoDuplicates(a) && InFirstOccurrenceOrder(a, s)
    ensures NoDuplicates(a[1..]) && InFirstOccurrenceOrder(a[1..], s)
  {
    forall i, j | 0 <= i < j < |a| - 1
      ensures FirstIndex(s, a[1..][i]) < FirstIndex(s, a[1..][j])
    {
      assert a[1..][i] == a[i + 1] && a[1..][j] == a[j + 1];
    }
  }

  /** Dropping a shared, unrepeated head keeps the elements equal. */
  lemma SameElementsTail<T>(a: seq<T>, b: seq<T>)
    requires |a| > 0 && |b| > 0 && a[0] == b[0]
    requires NoDuplicates(a) && NoDuplicates(b)
    requires SameElements(a, b)
    ensures SameElements(a[1..], b[1..])
  {
    forall i | 0 <= i < |a| - 1
      ensures a[1..][i] in b[1..]
    {
      assert a[i + 1] in b;
      var j :| 0 <= j < |b| && b[j] == a[i + 1];
      assert j != 0;
      assert b[1..][j - 1] == b[j];
    }
    forall j | 0 <= j < |b| - 1
      ensures b[1..][j] in a[1..]
    {
      assert b[j + 1] in a;
      var i :| 0 <= i < |a| && a[i] == b[j + 1];
      assert i != 0;
      assert a[1..][i - 1] == a[i];
    }
  }
}
