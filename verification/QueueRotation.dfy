/** The rotating choice of queues to reconcile on each tick. */
module QueueRotation {
  import opened Arithmetic

  predicate Named(name: string) {
    name != ""
  }

  function NonEmpty(names: seq<string>): seq<string> {
    if names == [] then []
    else if Named(names[0]) then [names[0]] + NonEmpty(names[1..])
    else NonEmpty(names[1..])
  }

  lemma {:induction false} NonEmptyMembers(names: seq<string>, x: string)
    ensures x in NonEmpty(names) <==> x in names && Named(x)
  {
    if names != [] {
      NonEmptyMembers(names[1..], x);
      hide Named;
      assert names == [names[0]] + names[1..];
    }
  }

  /** The names at `limit` consecutive places from the cursor, wrapping round. */
  function Slots(names: seq<string>, limit: nat, cursor: nat): (slots: seq<string>)
    requires |names| > 0
    ensures |slots| == limit
    ensures forall i :: 0 <= i < limit ==> slots[i] == names[(cursor + i) % |names|]
  {
    seq(limit, i requires 0 <= i < limit => names[(cursor + i) % |names|])
  }

  function Batch(names: seq<string>, limit: nat, cursor: nat): seq<string> {
    if |names| <= limit then names else NonEmpty(Slots(names, limit, cursor))
  }

  function NextCursor(names: seq<string>, limit: nat, cursor: nat): nat {
    if |names| <= limit then cursor else (cursor + limit) % |names|
  }

  /** The slots of m ticks in a row, on a fixed list. */
  function Ticks(names: seq<string>, limit: nat, cursor: nat, m: nat): seq<string>
    requires |names| > 0
    decreases m
  {
    if m == 0 then [] else Slots(names, limit, cursor) + Ticks(names, limit, (cursor + limit) % |names|, m - 1)
  }

  predicate Unique(names: seq<string>) {
    forall i, j :: 0 <= i < j < |names| ==> names[i] != names[j]
  }

  // ---- Arithmetic of the cursor ----

  /** The place of index x counted from the cursor. */
  function Offset(cursor: nat, x: nat, n: nat): nat
    requires x < n
  {
    if x >= cursor % n then x - cursor % n else x + n - cursor % n
  }

  lemma OffsetReaches(cursor: nat, x: nat, n: nat)
    requires x < n
    ensures Offset(cursor, x, n) < n && (cursor + Offset(cursor, x, n)) % n == x
  {
    var d := Offset(cursor, x, n);
    ModThenAdd(cursor, d, n);
    if x >= cursor % n {
      ModUnique(x, n, 0, x);
    } else {
      ModUnique(x + n, n, 1, x);
    }
  }

  // ---- Rotation ----

  lemma {:induction false} TicksClosedForm(names: seq<string>, limit: nat, cursor: nat, m: nat)
    requires |names| > 0
    ensures |Ticks(names, limit, cursor, m)| == m * limit
    ensures forall t :: 0 <= t < m * limit ==> Ticks(names, limit, cursor, m)[t] == names[(cursor + t) % |names|]
    decreases m
  {
    if m > 0 {
      var n := |names|;
      var next := (cursor + limit) % n;
      TicksClosedForm(names, limit, next, m - 1);
      assert m * limit == limit + (m - 1) * limit;
      var rest := Ticks(names, limit, next, m - 1);
      assert Ticks(names, limit, cursor, m) == Slots(names, limit, cursor) + rest;
      hide Ticks;
      forall t | 0 <= t < m * limit
        ensures (Slots(names, limit, cursor) + rest)[t] == names[(cursor + t) % n]
      {
        OneTickMore(names, limit, cursor, rest, t);
      }
    }
  }

  lemma OneTickMore(names: seq<string>, limit: nat, cursor: nat, rest: seq<string>, t: nat)
    requires |names| > 0 && t < limit + |rest|
    requires t >= limit ==> rest[t - limit] == names[((cursor + limit) % |names| + (t - limit)) % |names|]
    ensures (Slots(names, limit, cursor) + rest)[t] == names[(cursor + t) % |names|]
  {
    if t >= limit {
      ModThenAdd(cursor + limit, t - limit, |names|);
    }
  }

  /** Below the full list a tick picks the non-empty names of its places; a short list is taken whole. */
  lemma BatchExactly(names: seq<string>, limit: nat, cursor: nat, x: string)
    ensures x in Batch(names, limit, cursor) <==>
            if |names| <= limit then x in names else x != "" && x in Slots(names, limit, cursor)
  {
    if |names| > limit {
      NonEmptyMembers(Slots(names, limit, cursor), x);
      hide NonEmpty, Slots;
    }
  }

  /** A tick below the full list picks `limit` different queues, from any cursor. */
  lemma BatchIsDistinct(names: seq<string>, limit: nat, cursor: nat)
    requires limit < |names| && Unique(names)
    ensures Unique(Slots(names, limit, cursor))
    ensures (forall x :: x in names ==> Named(x)) ==> Batch(names, limit, cursor) == Slots(names, limit, cursor)
  {
    var slots := Slots(names, limit, cursor);
    forall i, j | 0 <= i < j < limit
      ensures slots[i] != slots[j]
    {
      ModApart(cursor + i, j - i, |names|);
    }
    if forall x :: x in names ==> Named(x) {
      AllNamed(slots);
    }
  }

  lemma {:induction false} AllNamed(names: seq<string>)
    requires forall i :: 0 <= i < |names| ==> Named(names[i])
    ensures NonEmpty(names) == names
  {
    hide Named;
    if names != [] {
      AllNamed(names[1..]);
      assert names == [names[0]] + names[1..];
    }
  }

  lemma SamePlace(cursor: nat, t: nat, u: nat, n: nat)
    requires n > 0 && t < u + n && u < t + n && (cursor + t) % n == (cursor + u) % n
    ensures t == u
  {
    if u < t {
      ModApart(cursor + u, t - u, n);
    } else if t < u {
      ModApart(cursor + t, u - t, n);
    }
  }

  /** Place t shows the name at x, and no other place of the round does. */
  predicate OnlyAt(all: seq<string>, name: string, from: nat, n: nat, t: nat) {
    && from <= t < from + n <= |all| && all[t] == name
    && forall u :: from <= u < from + n && u != t ==> all[u] != name
  }

  lemma OnlyOnePlace(names: seq<string>, all: seq<string>, cursor: nat, from: nat, t: nat, x: nat)
    requires Unique(names) && x < |names| && from <= t < from + |names| <= |all| && (cursor + t) % |names| == x
    requires forall u :: 0 <= u < |all| ==> all[u] == names[(cursor + u) % |names|]
    ensures OnlyAt(all, names[x], from, |names|, t)
  {
    forall u | from <= u < from + |names| && u != t
      ensures all[u] != names[x]
    {
      if (cursor + u) % |names| == x {
        SamePlace(cursor, t, u, |names|);
      }
    }
  }

  /** Any |names| consecutive slots, across ticks, name every queue exactly once. */
  lemma OncePerRound(names: seq<string>, limit: nat, cursor: nat, m: nat, from: nat, x: nat)
    requires Unique(names) && x < |names| && from + |names| <= m * limit
    ensures exists t :: OnlyAt(Ticks(names, limit, cursor, m), names[x], from, |names|, t)
  {
    TicksClosedForm(names, limit, cursor, m);
    OffsetReaches(cursor + from, x, |names|);
    var t := from + Offset(cursor + from, x, |names|);
    hide Ticks, Offset, Unique, OnlyAt;
    OnlyOnePlace(names, Ticks(names, limit, cursor, m), cursor, from, t, x);
  }

  // ---- Coverage by the ticks as they are made ----

  /** The batches of m ticks in a row on a fixed list, each from the cursor the one before left. */
  function Batches(names: seq<string>, limit: nat, cursor: nat, m: nat): seq<string>
    decreases m
  {
    if m == 0 then []
    else Batch(names, limit, cursor) + Batches(names, limit, NextCursor(names, limit, cursor), m - 1)
  }

  lemma {:induction false} NonEmptyAppend(a: seq<string>, b: seq<string>)
    ensures NonEmpty(a + b) == NonEmpty(a) + NonEmpty(b)
  {
    hide Named;
    if a == [] {
      assert a + b == b;
    } else {
      assert (a + b)[1..] == a[1..] + b;
      NonEmptyAppend(a[1..], b);
    }
  }

  /** Below the full list they are the slots, without empty names. */
  lemma {:induction false} BatchesAreTicks(names: seq<string>, limit: nat, cursor: nat, m: nat)
    requires limit < |names|
    ensures Batches(names, limit, cursor, m) == NonEmpty(Ticks(names, limit, cursor, m))
    decreases m
  {
    if m > 0 {
      hide NonEmpty, Slots;
      var next := NextCursor(names, limit, cursor);
      BatchesAreTicks(names, limit, next, m - 1);
      NonEmptyAppend(Slots(names, limit, cursor), Ticks(names, limit, next, m - 1));
    }
  }

  /** m ticks select every queue with a name. */
  ghost predicate Covers(names: seq<string>, limit: nat, cursor: nat, m: nat) {
    forall x :: x in names && Named(x) ==> x in Batches(names, limit, cursor, m)
  }

  lemma OffsetIsLeast(cursor: nat, x: nat, n: nat, t: nat)
    requires x < n && (cursor + t) % n == x
    ensures Offset(cursor, x, n) <= t
  {
    var o := Offset(cursor, x, n);
    OffsetReaches(cursor, x, n);
    hide Offset;
    if t < o {
      ModApart(cursor + t, o - t, n);
    }
  }

  lemma InTicksIff(names: seq<string>, limit: nat, cursor: nat, m: nat, x: nat)
    requires Unique(names) && x < |names|
    ensures names[x] in Ticks(names, limit, cursor, m) <==> Offset(cursor, x, |names|) < m * limit
  {
    var n := |names|;
    var all := Ticks(names, limit, cursor, m);
    TicksClosedForm(names, limit, cursor, m);
    OffsetReaches(cursor, x, n);
    hide Ticks, Offset;
    if Offset(cursor, x, n) < m * limit {
      assert all[Offset(cursor, x, n)] == names[x];
    }
    if names[x] in all {
      var t :| 0 <= t < |all| && all[t] == names[x];
      OffsetIsLeast(cursor, x, n, t);
    }
  }

  lemma {:induction false} FullBatches(names: seq<string>, limit: nat, cursor: nat, m: nat)
    requires |names| <= limit
    ensures forall x :: x in Batches(names, limit, cursor, m) <==> m > 0 && x in names
    decreases m
  {
    if m > 0 {
      FullBatches(names, limit, cursor, m - 1);
    }
  }

  /** From any cursor, m ticks select every named queue exactly when each lies within the slots of m ticks; a full list
      needs one tick. */
  lemma CoversIff(names: seq<string>, limit: nat, cursor: nat, m: nat)
    requires Unique(names)
    ensures Covers(names, limit, cursor, m) <==>
            forall x: nat :: x < |names| && Named(names[x]) ==>
              if |names| <= limit then m > 0 else Offset(cursor, x, |names|) < m * limit
  {
    hide Batches, Offset, Ticks, Named, Unique;
    if |names| <= limit {
      FullBatches(names, limit, cursor, m);
    } else {
      BatchesAreTicks(names, limit, cursor, m);
      forall x: nat | x < |names|
        ensures names[x] in Ticks(names, limit, cursor, m) <==> Offset(cursor, x, |names|) < m * limit
      {
        InTicksIff(names, limit, cursor, m, x);
      }
      forall x
        ensures x in Batches(names, limit, cursor, m) <==> x in Ticks(names, limit, cursor, m) && Named(x)
      {
        NonEmptyMembers(Ticks(names, limit, cursor, m), x);
      }
    }
    forall x: nat | x < |names|
      ensures names[x] in names
    {
    }
  }

  /** When no name is empty, that is exactly when m * limit reaches the number of queues. */
  lemma AllNamedCoversIff(names: seq<string>, limit: nat, cursor: nat, m: nat)
    requires names != [] && Unique(names) && forall i :: 0 <= i < |names| ==> Named(names[i])
    ensures Covers(names, limit, cursor, m) <==> m * limit >= |names|
  {
    var n := |names|;
    CoversIff(names, limit, cursor, m);
    hide Covers, Named;
    PositiveMultiple(limit, m);
    if n <= limit {
      assert Named(names[0]);
      assert m > 0 ==> m * limit >= limit;
    } else {
      forall x: nat | x < n
        ensures Offset(cursor, x, n) < n
      {
        OffsetReaches(cursor, x, n);
      }
      if m * limit < n {
        var missed := (cursor + m * limit) % n;
        FarthestOffset(cursor, m * limit, n);
        assert Named(names[missed]);
      }
    }
  }

  lemma FarthestOffset(cursor: nat, d: nat, n: nat)
    requires d < n
    ensures (cursor + d) % n < n && Offset(cursor, (cursor + d) % n, n) == d
  {
    var x := (cursor + d) % n;
    OffsetReaches(cursor, x, n);
    SamePlace(cursor, Offset(cursor, x, n), d, n);
  }

  /** ceil(n / limit) is the least m with m * limit >= n. */
  lemma CeilIsLeast(n: nat, limit: nat, m: nat)
    requires limit > 0
    ensures m * limit >= n <==> m >= (n + limit - 1) / limit
  {
    var c := (n + limit - 1) / limit;
    var rest := (n + limit - 1) % limit;
    assert n + limit - 1 == limit * c + rest;
    assert limit * (c - m) == limit * c - m * limit;
    assert limit * (m - c) == m * limit - limit * c;
    PositiveMultiple(limit, c - m);
    PositiveMultiple(limit, m - c);
  }

  /** So any ceil(n / limit) consecutive ticks cover the list, and fewer never do. */
  lemma CeilTicksCover(names: seq<string>, limit: nat, cursor: nat, m: nat)
    requires names != [] && Unique(names) && limit > 0 && forall i :: 0 <= i < |names| ==> Named(names[i])
    ensures Covers(names, limit, cursor, m) <==> m >= (|names| + limit - 1) / limit
  {
    AllNamedCoversIff(names, limit, cursor, m);
    CeilIsLeast(|names|, limit, m);
  }

  // ---- The module-level cursor ----

  class Rotation {
    var queueCursor: nat

    constructor ()
      ensures queueCursor == 0
    {
      queueCursor := 0;
    }

    method SelectQueueBatch(queueNames: seq<string>, limit: nat) returns (batch: seq<string>)
      modifies this
      ensures batch == Batch(queueNames, limit, old(queueCursor))
      ensures queueCursor == NextCursor(queueNames, limit, old(queueCursor))
      ensures batch == Batches(queueNames, limit, old(queueCursor), 1)
    {
      if |queueNames| <= limit {
        return queueNames;
      }
      var selected := [];
      var i := 0;
      while i < limit
        invariant 0 <= i <= limit && |selected| == i
        invariant forall j :: 0 <= j < i ==> selected[j] == queueNames[(queueCursor + j) % |queueNames|]
        invariant queueCursor == old(queueCursor)
      {
        selected := selected + [queueNames[(queueCursor + i) % |queueNames|]];
        i := i + 1;
      }
      assert selected == Slots(queueNames, limit, queueCursor);
      queueCursor := (queueCursor + limit) % |queueNames|;
      batch := NonEmpty(selected);
    }
  }
}
