/** Filtering and stable sorting of sequences, by an order given as a function.
    This is what a SELECT with WHERE and ORDER BY computes, and what Array.sort computes. */
module Ordering {

  /** A strict weak order: ties are allowed, and being tied is transitive. */
  ghost predicate StrictWeakOrder<T(!new)>(before: (T, T) -> bool) {
    && (forall a, b :: before(a, b) ==> !before(b, a))
    && (forall a, b, c {:trigger before(a, b), before(b, c)} :: before(a, c) ==> before(a, b) || before(b, c))
  }

  ghost predicate Sorted<T>(s: seq<T>, before: (T, T) -> bool) {
    forall i, j :: 0 <= i < j < |s| ==> before(s[i], s[j])
  }

  /** No two positions of s are tied. */
  ghost predicate Untied<T>(s: seq<T>, before: (T, T) -> bool) {
    forall i, j :: 0 <= i < j < |s| ==> before(s[i], s[j]) || before(s[j], s[i])
  }

  lemma Transitive<T(!new)>(before: (T, T) -> bool, a: T, b: T, c: T)
    requires StrictWeakOrder(before)
    requires before(a, b) && before(b, c)
    ensures before(a, c)
  {
    assert before(a, b) ==> before(a, c) || before(c, b);
  }

  lemma NotBefore<T(!new)>(before: (T, T) -> bool, a: T, b: T, c: T)
    requires StrictWeakOrder(before)
    requires !before(a, b) && !before(b, c)
    ensures !before(a, c)
  {
    assert before(a, b) || before(b, c) || !before(a, c);
  }

  function Filter<T>(s: seq<T>, keep: T -> bool): seq<T> {
    if s == [] then [] else (if keep(s[0]) then [s[0]] else []) + Filter(s[1..], keep)
  }

  lemma {:induction false} FilterMembers<T(!new)>(s: seq<T>, keep: T -> bool)
    ensures forall x :: x in Filter(s, keep) <==> x in s && keep(x)
    ensures |Filter(s, keep)| <= |s|
  {
    if s != [] {
      FilterMembers(s[1..], keep);
      assert s == [s[0]] + s[1..];
    }
  }

  lemma {:induction false} FilterUntied<T(!new)>(s: seq<T>, keep: T -> bool, before: (T, T) -> bool)
    requires Untied(s, before)
    ensures Untied(Filter(s, keep), before)
  {
    if s != [] {
      FilterUntied(s[1..], keep, before);
      FilterMembers(s[1..], keep);
      var rest := Filter(s[1..], keep);
      forall j | 0 <= j < |rest| ensures before(s[0], rest[j]) || before(rest[j], s[0]) {
        assert rest[j] in rest;
        var k :| 0 <= k < |s[1..]| && s[1..][k] == rest[j];
        assert s[k + 1] == rest[j];
      }
    }
  }

  /** Stable insertion: x goes before the first element that must not precede it. */
  function Insert<T>(x: T, s: seq<T>, before: (T, T) -> bool): seq<T> {
    if s == [] || !before(s[0], x) then [x] + s else [s[0]] + Insert(x, s[1..], before)
  }

  function Sort<T>(s: seq<T>, before: (T, T) -> bool): seq<T> {
    if s == [] then [] else Insert(s[0], Sort(s[1..], before), before)
  }

  lemma {:induction false} InsertKeeps<T(!new)>(x: T, s: seq<T>, before: (T, T) -> bool)
    ensures multiset(Insert(x, s, before)) == multiset{x} + multiset(s)
    ensures |Insert(x, s, before)| == |s| + 1
  {
    if s == [] || !before(s[0], x) {
    } else {
      InsertKeeps(x, s[1..], before);
      assert s == [s[0]] + s[1..];
    }
  }

  lemma {:induction false} SortKeeps<T(!new)>(s: seq<T>, before: (T, T) -> bool)
    ensures multiset(Sort(s, before)) == multiset(s)
    ensures |Sort(s, before)| == |s|
    ensures forall x :: x in Sort(s, before) <==> x in s
  {
    if s != [] {
      SortKeeps(s[1..], before);
      InsertKeeps(s[0], Sort(s[1..], before), before);
      assert s == [s[0]] + s[1..];
    }
    assert forall x :: x in Sort(s, before) <==> x in multiset(Sort(s, before));
    assert forall x :: x in s <==> x in multiset(s);
  }

  lemma {:induction false} InsertSorts<T(!new)>(x: T, s: seq<T>, before: (T, T) -> bool)
    requires StrictWeakOrder(before) && Sorted(s, before)
    requires forall y :: y in s ==> before(x, y) || before(y, x)
    ensures Sorted(Insert(x, s, before), before)
  {
    if s == [] {
    } else if !before(s[0], x) {
      forall j | 0 <= j < |s| ensures before(x, s[j]) {
        if j > 0 { Transitive(before, x, s[0], s[j]); }
      }
    } else {
      InsertSorts(x, s[1..], before);
      InsertKeeps(x, s[1..], before);
      var rest := Insert(x, s[1..], before);
      forall j | 0 <= j < |rest| ensures before(s[0], rest[j]) {
        assert rest[j] in multiset(rest);
        assert rest[j] == x || rest[j] in s[1..];
      }
    }
  }

  lemma {:induction false} SortSorts<T(!new)>(s: seq<T>, before: (T, T) -> bool)
    requires StrictWeakOrder(before) && Untied(s, before)
    ensures Sorted(Sort(s, before), before)
  {
    if s != [] {
      SortSorts(s[1..], before);
      SortKeeps(s[1..], before);
      InsertSorts(s[0], Sort(s[1..], before), before);
    }
  }

  /** Sorted with ties: nothing comes after what it must precede. */
  ghost predicate Ascending<T>(s: seq<T>, before: (T, T) -> bool) {
    forall i, j :: 0 <= i < j < |s| ==> !before(s[j], s[i])
  }

  lemma {:induction false} InsertAscends<T(!new)>(x: T, s: seq<T>, before: (T, T) -> bool)
    requires StrictWeakOrder(before) && Ascending(s, before)
    ensures Ascending(Insert(x, s, before), before)
  {
    if s == [] {
    } else if !before(s[0], x) {
      forall j | 0 <= j < |s| ensures !before(s[j], x) {
        if j > 0 { NotBefore(before, s[j], s[0], x); }
      }
    } else {
      InsertAscends(x, s[1..], before);
      InsertKeeps(x, s[1..], before);
      var rest := Insert(x, s[1..], before);
      forall j | 0 <= j < |rest| ensures !before(rest[j], s[0]) {
        assert rest[j] in multiset(rest);
        assert rest[j] == x || rest[j] in s[1..];
      }
    }
  }

  lemma {:induction false} SortAscends<T(!new)>(s: seq<T>, before: (T, T) -> bool)
    requires StrictWeakOrder(before)
    ensures Ascending(Sort(s, before), before)
  {
    if s != [] {
      SortAscends(s[1..], before);
      InsertAscends(s[0], Sort(s[1..], before), before);
    }
  }

  lemma {:induction false} FilterAscends<T(!new)>(s: seq<T>, keep: T -> bool, before: (T, T) -> bool)
    requires Ascending(s, before)
    ensures Ascending(Filter(s, keep), before)
  {
    if s != [] {
      FilterAscends(s[1..], keep, before);
      FilterMembers(s[1..], keep);
      var rest := Filter(s[1..], keep);
      forall j | 0 <= j < |rest| ensures !before(rest[j], s[0]) {
        assert rest[j] in rest;
        var k :| 0 <= k < |s[1..]| && s[1..][k] == rest[j];
        assert s[k + 1] == rest[j];
      }
    }
  }

  /** A sorted sequence is determined by its members. */
  lemma {:induction false} SortedUnique<T(!new)>(a: seq<T>, b: seq<T>, before: (T, T) -> bool)
    requires StrictWeakOrder(before) && Sorted(a, before) && Sorted(b, before)
    requires forall x :: x in a <==> x in b
    ensures a == b
  {
    assert |b| > 0 ==> b[0] in a;
    if a != [] {
      assert a[0] in b;
      assert b[0] in a;
      var i :| 0 <= i < |b| && b[i] == a[0];
      var j :| 0 <= j < |a| && a[j] == b[0];
      assert a[0] == b[0];
      forall x ensures x in a[1..] <==> x in b[1..] {
        if x in a[1..] {
          var k :| 1 <= k < |a| && a[k] == x;
          assert x in b && before(a[0], x) && x != b[0];
        }
        if x in b[1..] {
          var k :| 1 <= k < |b| && b[k] == x;
          assert x in a && before(b[0], x) && x != a[0];
        }
      }
      SortedUnique(a[1..], b[1..], before);
    }
  }

  /** Sorting the kept elements gives any sorted sequence that has exactly those members. */
  lemma SelectUnique<T(!new)>(s: seq<T>, keep: T -> bool, before: (T, T) -> bool, target: seq<T>)
    requires StrictWeakOrder(before) && Untied(s, before)
    requires Sorted(target, before)
    requires forall x :: x in target <==> x in s && keep(x)
    ensures Sort(Filter(s, keep), before) == target
  {
    var kept := Filter(s, keep);
    FilterMembers(s, keep);
    FilterUntied(s, keep, before);
    SortSorts(kept, before);
    SortKeeps(kept, before);
    SortedUnique(Sort(kept, before), target, before);
  }

  lemma SelectSorted<T(!new)>(s: seq<T>, keep: T -> bool, before: (T, T) -> bool)
    requires StrictWeakOrder(before) && Untied(s, before)
    ensures Sorted(Sort(Filter(s, keep), before), before)
    ensures forall x :: x in Sort(Filter(s, keep), before) <==> x in s && keep(x)
  {
    FilterMembers(s, keep);
    FilterUntied(s, keep, before);
    SortSorts(Filter(s, keep), before);
    SortKeeps(Filter(s, keep), before);
  }

  function Reverse<T>(s: seq<T>): (r: seq<T>)
    ensures |r| == |s| && forall k :: 0 <= k < |s| ==> r[k] == s[|s| - 1 - k]
  {
    seq(|s|, k requires 0 <= k < |s| => s[|s| - 1 - k])
  }

  lemma ReverseMembers<T(!new)>(s: seq<T>)
    ensures forall x :: x in Reverse(s) <==> x in s
  {
    var r := Reverse(s);
    forall x ensures x in r <==> x in s {
      if x in r {
        var k :| 0 <= k < |r| && r[k] == x;
        assert s[|s| - 1 - k] == x;
      }
      if x in s {
        var k :| 0 <= k < |s| && s[k] == x;
        assert r[|s| - 1 - k] == x;
      }
    }
  }
}
