/** Cursor pagination with one look-ahead row, as both listings use it: fetch limit + 1 rows beyond the
    cursor, drop the extra one, and reverse the rows of a backwards page into display order. */
module KeysetPaging {
  import opened Common
  import opened Ordering

  datatype Direction = Next | Prev

  datatype Page<+R, +C> = Page(rows: seq<R>, nextCursor: Option<C>, prevCursor: Option<C>)

  /** One listing: its WHERE conditions, ORDER BY, cursor comparison and cursor of a row. */
  datatype Listing<!R, !C> = Listing(
    matches: R -> bool,
    before: (Direction, R, R) -> bool,
    beyond: (Direction, C, R) -> bool,
    toCursor: R -> C)

  function Where<R, C>(l: Listing<R, C>, dir: Direction, cursor: Option<C>): R -> bool {
    (r: R) => l.matches(r) && (cursor.Some? ==> l.beyond(dir, cursor.value, r))
  }

  function By<R, C>(l: Listing<R, C>, dir: Direction): (R, R) -> bool {
    (a: R, b: R) => l.before(dir, a, b)
  }

  function Take<T>(s: seq<T>, n: nat): seq<T> {
    if |s| <= n then s else s[..n]
  }

  function Candidates<R, C>(l: Listing<R, C>, table: seq<R>, dir: Direction, cursor: Option<C>): seq<R> {
    Sort(Filter(table, Where(l, dir, cursor)), By(l, dir))
  }

  function Fetch<R, C>(l: Listing<R, C>, table: seq<R>, dir: Direction, cursor: Option<C>, n: nat): seq<R> {
    Take(Candidates(l, table, dir, cursor), n)
  }

  /** Pop the look-ahead row, if it was fetched. */
  function DropExtra<T>(rows: seq<T>, limit: nat): seq<T> {
    if |rows| > limit then rows[..|rows| - 1] else rows
  }

  /** From the fetched rows to the page: look-ahead, display order and the two cursors. */
  function Finish<R, C>(l: Listing<R, C>, rows: seq<R>, dir: Direction, cursor: Option<C>, limit: nat): Page<R, C> {
    var hasExtra := |rows| > limit;
    var kept := DropExtra(rows, limit);
    var shown := if dir.Prev? then Reverse(kept) else kept;
    var hasNewer := if dir.Next? then cursor.Some? else hasExtra;
    var hasOlder := if dir.Prev? then cursor.Some? else hasExtra;
    Page(
      shown,
      if hasOlder && shown != [] then Some(l.toCursor(shown[|shown| - 1])) else None,
      if hasNewer && shown != [] then Some(l.toCursor(shown[0])) else None)
  }

  function ListPage<R, C>(l: Listing<R, C>, table: seq<R>, dir: Direction, cursor: Option<C>, limit: nat): Page<R, C> {
    Finish(l, Fetch(l, table, dir, cursor, limit + 1), dir, cursor, limit)
  }

  /** What makes the WHERE comparison and the ORDER BY of a listing fit together. */
  ghost predicate Coherent<R(!new), C>(l: Listing<R, C>) {
    && StrictWeakOrder(By(l, Next))
    && (forall a, b :: l.before(Prev, a, b) == l.before(Next, b, a))
    && (forall dir, r, x :: l.beyond(dir, l.toCursor(r), x) == l.before(dir, r, x))
  }

  /** No two rows of the table share a sort key. */
  ghost predicate Keyed<R, C>(l: Listing<R, C>, table: seq<R>) {
    Untied(table, By(l, Next))
  }

  ghost predicate SameKey<R, C>(l: Listing<R, C>, a: R, b: R) {
    !l.before(Next, a, b) && !l.before(Next, b, a)
  }

  /** The whole filtered table in display order. */
  function Listed<R, C>(l: Listing<R, C>, table: seq<R>): seq<R> {
    Sort(Filter(table, l.matches), By(l, Next))
  }

  /** The page that starts at offset lo of the listed rows. */
  function PageAt<R, C>(l: Listing<R, C>, s: seq<R>, lo: nat, limit: nat): Page<R, C>
    requires lo <= |s| && limit >= 1
  {
    Page(
      Take(s[lo..], limit),
      if lo + limit < |s| then Some(l.toCursor(s[lo + limit - 1])) else None,
      if 0 < lo < |s| then Some(l.toCursor(s[lo])) else None)
  }

  function CursorOf<R, C>(l: Listing<R, C>, last: Option<R>): Option<C> {
    if last.Some? then Some(l.toCursor(last.value)) else None
  }

  lemma BackwardsOrder<R(!new), C>(l: Listing<R, C>, table: seq<R>)
    requires Coherent(l)
    ensures StrictWeakOrder(By(l, Prev))
    ensures Keyed(l, table) ==> Untied(table, By(l, Prev))
  {
    var f, g := By(l, Next), By(l, Prev);
    forall a, b ensures g(a, b) == f(b, a) {
      assert l.before(Prev, a, b) == l.before(Next, b, a);
    }
    forall a, b, c | g(a, c) ensures g(a, b) || g(b, c) {
      assert f(c, a);
      assert f(c, b) || f(b, a);
    }
  }

  lemma CandidatesSorted<R(!new), C>(l: Listing<R, C>, table: seq<R>, last: Option<R>)
    requires Coherent(l) && Keyed(l, table)
    ensures Sorted(Candidates(l, table, Next, CursorOf(l, last)), By(l, Next))
    ensures forall x :: x in Candidates(l, table, Next, CursorOf(l, last)) <==>
                        x in table && l.matches(x) && (last.Some? ==> l.before(Next, last.value, x))
  {
    SelectSorted(table, Where(l, Next, CursorOf(l, last)), By(l, Next));
  }

  lemma ListedSorted<R(!new), C>(l: Listing<R, C>, table: seq<R>)
    requires Coherent(l) && Keyed(l, table)
    ensures Sorted(Listed(l, table), By(l, Next))
    ensures forall x :: x in Listed(l, table) <==> x in table && l.matches(x)
  {
    SelectSorted(table, l.matches, By(l, Next));
  }

  /** In a sorted list the rows after position k are those that follow the row at k, and the rows
      before it are those that precede it. */
  lemma SortedSplit<R(!new)>(s: seq<R>, before: (R, R) -> bool, k: nat)
    requires StrictWeakOrder(before) && Sorted(s, before) && k < |s|
    ensures forall x :: x in s[k + 1..] <==> x in s && before(s[k], x)
    ensures forall x :: x in s[..k] <==> x in s && before(x, s[k])
  {
    forall x | x in s ensures x in s[k + 1..] <==> before(s[k], x)
                      ensures x in s[..k] <==> before(x, s[k])
    {
      var i :| 0 <= i < |s| && s[i] == x;
      if i < k { assert s[..k][i] == x; assert before(x, s[k]); }
      if i > k { assert s[k + 1..][i - k - 1] == x; assert before(s[k], x); }
      if x in s[k + 1..] {
        var j :| 0 <= j < |s[k + 1..]| && s[k + 1..][j] == x;
        assert before(s[k], s[j + k + 1]);
      }
      if x in s[..k] {
        var j :| 0 <= j < k && s[j] == x;
        assert before(s[j], s[k]);
      }
    }
    forall x | x in s[k + 1..] ensures x in s {}
    forall x | x in s[..k] ensures x in s {}
  }

  lemma ForwardCandidates<R(!new), C>(l: Listing<R, C>, table: seq<R>, lo: nat)
    requires Coherent(l) && Keyed(l, table) && lo <= |Listed(l, table)|
    ensures var s := Listed(l, table);
            Candidates(l, table, Next, if lo == 0 then None else Some(l.toCursor(s[lo - 1]))) == s[lo..]
  {
    var s := Listed(l, table);
    ListedSorted(l, table);
    var last := if lo == 0 then None else Some(s[lo - 1]);
    var keep := Where(l, Next, CursorOf(l, last));
    if lo > 0 { SortedSplit(s, By(l, Next), lo - 1); }
    assert lo == 0 ==> s[lo..] == s;
    forall x ensures x in s[lo..] <==> x in table && keep(x) {
      assert x in s <==> x in table && l.matches(x);
      if lo > 0 { assert x in s[lo..] <==> x in s && l.before(Next, s[lo - 1], x); }
    }
    SelectUnique(table, keep, By(l, Next), s[lo..]);
  }

  lemma ReverseSorted<R(!new)>(s: seq<R>, before: (R, R) -> bool, flipped: (R, R) -> bool)
    requires Sorted(s, before)
    requires forall a, b :: before(a, b) ==> flipped(b, a)
    ensures Sorted(Reverse(s), flipped)
  {
    var r := Reverse(s);
    forall i, j | 0 <= i < j < |r| ensures flipped(r[i], r[j]) {
      assert before(s[|s| - 1 - j], s[|s| - 1 - i]);
    }
  }

  lemma BackwardCandidates<R(!new), C>(l: Listing<R, C>, table: seq<R>, hi: nat)
    requires Coherent(l) && Keyed(l, table) && hi < |Listed(l, table)|
    ensures var s := Listed(l, table);
            Candidates(l, table, Prev, Some(l.toCursor(s[hi]))) == Reverse(s[..hi])
  {
    var s := Listed(l, table);
    var keep := Where(l, Prev, Some(l.toCursor(s[hi])));
    ListedSorted(l, table);
    SortedSplit(s, By(l, Next), hi);
    ReverseMembers(s[..hi]);
    forall x ensures x in Reverse(s[..hi]) <==> x in table && keep(x) {
      assert x in s <==> x in table && l.matches(x);
      assert l.beyond(Prev, l.toCursor(s[hi]), x) == l.before(Prev, s[hi], x) == By(l, Next)(x, s[hi]);
    }
    BackwardsOrder(l, table);
    ReverseSorted(s[..hi], By(l, Next), By(l, Prev));
    SelectUnique(table, keep, By(l, Prev), Reverse(s[..hi]));
  }

  lemma DropExtraTakes<T>(s: seq<T>, limit: nat)
    ensures DropExtra(Take(s, limit + 1), limit) == Take(s, limit)
  {
  }

  lemma FinishForward<R, C>(l: Listing<R, C>, s: seq<R>, lo: nat, limit: nat)
    requires limit >= 1 && (lo == 0 || lo < |s|)
    ensures Finish(l, Take(s[lo..], limit + 1), Next, if lo == 0 then None else Some(l.toCursor(s[lo - 1])), limit)
            == PageAt(l, s, lo, limit)
  {
    DropExtraTakes(s[lo..], limit);
  }

  /** The limit rows nearest below lo, read backwards and put back in order. */
  lemma BackwardWindow<R>(s: seq<R>, lo: nat, limit: nat)
    requires limit <= lo <= |s|
    ensures Reverse(Take(Reverse(s[..lo]), limit)) == Take(s[lo - limit..], limit)
  {
    var back := Reverse(s[..lo]);
    var kept := Take(back, limit);
    assert |kept| == limit;
    forall k | 0 <= k < limit ensures kept[k] == s[lo - 1 - k] {
      assert kept[k] == back[k];
    }
  }

  lemma FinishBackward<R, C>(l: Listing<R, C>, s: seq<R>, lo: nat, limit: nat)
    requires 1 <= limit <= lo < |s|
    ensures Finish(l, Take(Reverse(s[..lo]), limit + 1), Prev, Some(l.toCursor(s[lo])), limit)
            == PageAt(l, s, lo - limit, limit)
  {
    hide DropExtra, Reverse;
    var back := Reverse(s[..lo]);
    var shown := s[lo - limit..lo];
    DropExtraTakes(back, limit);
    BackwardWindow(s, lo, limit);
    assert Take(s[lo - limit..], limit) == shown;
    assert shown[0] == s[lo - limit] && shown[limit - 1] == s[lo - 1];
    assert |Take(back, limit + 1)| > limit <==> limit < lo;
  }

  /** Paging refines slicing: the first page and every page reached by a next cursor are slices. */
  lemma NextPageIsSlice<R(!new), C>(l: Listing<R, C>, table: seq<R>, lo: nat, limit: nat)
    requires Coherent(l) && Keyed(l, table) && limit >= 1
    requires lo == 0 || lo < |Listed(l, table)|
    ensures var s := Listed(l, table);
            ListPage(l, table, Next, if lo == 0 then None else Some(l.toCursor(s[lo - 1])), limit) ==
                PageAt(l, s, lo, limit)
  {
    ForwardCandidates(l, table, lo);
    FinishForward(l, Listed(l, table), lo, limit);
  }

  /** Prev undoes next: from the page at lo, the previous cursor leads to the whole page at lo - limit,
      cursors included. */
  lemma PrevPageIsSlice<R(!new), C>(l: Listing<R, C>, table: seq<R>, lo: nat, limit: nat)
    requires Coherent(l) && Keyed(l, table) && limit >= 1
    requires limit <= lo < |Listed(l, table)|
    ensures var s := Listed(l, table);
            ListPage(l, table, Prev, Some(l.toCursor(s[lo])), limit) == PageAt(l, s, lo - limit, limit)
  {
    BackwardCandidates(l, table, lo);
    FinishBackward(l, Listed(l, table), lo, limit);
  }

  /** Following the previous cursor of any later page, and then the next cursor of what comes back. */
  lemma PrevUndoesNext<R(!new), C>(l: Listing<R, C>, table: seq<R>, lo: nat, limit: nat)
    requires Coherent(l) && Keyed(l, table) && limit >= 1
    requires limit <= lo < |Listed(l, table)|
    ensures var here := PageAt(l, Listed(l, table), lo, limit);
            var back := ListPage(l, table, Prev, here.prevCursor, limit);
            && here.prevCursor.Some?
            && back == PageAt(l, Listed(l, table), lo - limit, limit)
            && ListPage(l, table, Next, back.nextCursor, limit) == here
  {
    PrevPageIsSlice(l, table, lo, limit);
    NextPageIsSlice(l, table, lo, limit);
  }

  // ---- One page, for any cursor ----

  /** Rows that are asked for, in display order, the nearest ones to the cursor, as many as fit. */
  ghost predicate RowsShow<R(!new)>(
    rows: seq<R>, asked: R -> bool, shownFirst: (R, R) -> bool, dir: Direction, limit: nat)
  {
    && Sorted(rows, shownFirst) && |rows| <= limit
    && (forall x :: x in rows ==> asked(x))
    && (forall x :: asked(x) && x !in rows ==>
          |rows| == limit && forall y :: y in rows ==> if dir == Next then shownFirst(y, x) else shownFirst(x, y))
  }

  /** The cursors of a page are those of its own last and first row; going forwards there is a next one exactly when a
      row was left out, and going backwards there is a previous one exactly then. */
  ghost predicate CursorsShow<R, C>(
    p: Page<R, C>, leftOut: bool, cursorOf: R -> C, dir: Direction, hasCursor: bool)
  {
    && (p.nextCursor.Some? ==> p.rows != [] && p.nextCursor.value == cursorOf(p.rows[|p.rows| - 1]))
    && (p.prevCursor.Some? ==> p.rows != [] && p.prevCursor.value == cursorOf(p.rows[0]))
    && ((if dir == Next then p.nextCursor else p.prevCursor).Some? <==> leftOut)
    && ((if dir == Next then p.prevCursor else p.nextCursor).Some? <==> hasCursor && p.rows != [])
  }

  ghost predicate LeftOut<R(!new)>(rows: seq<R>, asked: R -> bool) {
    exists x :: asked(x) && x !in rows
  }

  ghost predicate PageShows<R(!new), C>(
    p: Page<R, C>, asked: R -> bool, shownFirst: (R, R) -> bool, cursorOf: R -> C,
    dir: Direction, hasCursor: bool, limit: nat)
  {
    RowsShow(p.rows, asked, shownFirst, dir, limit) && CursorsShow(p, LeftOut(p.rows, asked), cursorOf, dir, hasCursor)
  }

  /** The page is the same under any other way to say what is asked for, shown first and pointed at. */
  lemma SaidOtherwise<R(!new), C>(
    p: Page<R, C>, dir: Direction, hasCursor: bool, limit: nat, asked: R -> bool, shownFirst: (R, R) -> bool,
    cursorOf: R -> C, asked2: R -> bool, shownFirst2: (R, R) -> bool, cursorOf2: R -> C)
    requires PageShows(p, asked, shownFirst, cursorOf, dir, hasCursor, limit)
    requires forall x :: asked(x) == asked2(x) && cursorOf(x) == cursorOf2(x)
    requires forall x, y :: shownFirst(x, y) == shownFirst2(x, y)
    ensures PageShows(p, asked2, shownFirst2, cursorOf2, dir, hasCursor, limit)
  {
  }

  /** A row that the request asks for: it matches and lies beyond the cursor. */
  function Wanted<R(==), C>(l: Listing<R, C>, table: seq<R>, dir: Direction, cursor: Option<C>): R -> bool {
    (x: R) => x in table && l.matches(x) && (cursor.Some? ==> l.beyond(dir, cursor.value, x))
  }

  lemma WantedSorted<R(!new), C>(l: Listing<R, C>, table: seq<R>, dir: Direction, cursor: Option<C>)
    requires Coherent(l) && Keyed(l, table)
    ensures StrictWeakOrder(By(l, dir)) && Sorted(Candidates(l, table, dir, cursor), By(l, dir))
    ensures forall x :: x in Candidates(l, table, dir, cursor) <==> Wanted(l, table, dir, cursor)(x)
  {
    BackwardsOrder(l, table);
    if dir == Next {
      SelectSorted(table, Where(l, Next, cursor), By(l, Next));
    } else {
      SelectSorted(table, Where(l, Prev, cursor), By(l, Prev));
    }
  }

  lemma TakeSplits<R(!new)>(s: seq<R>, before: (R, R) -> bool, n: nat)
    requires Sorted(s, before)
    ensures Sorted(Take(s, n), before) && |Take(s, n)| <= n
    ensures forall x :: x in Take(s, n) ==> x in s
    ensures forall x :: x in s && x !in Take(s, n) ==>
              |Take(s, n)| == n && forall y :: y in Take(s, n) ==> before(y, x)
  {
    forall k | 0 <= k < |Take(s, n)|
      ensures s[k] in Take(s, n)
    {
      assert Take(s, n)[k] == s[k];
    }
    forall x | x in s && x !in Take(s, n)
      ensures |s| > n && forall y :: y in Take(s, n) ==> before(y, x)
    {
      var j :| 0 <= j < |s| && s[j] == x;
      assert j >= n;
    }
  }

  /** What a page shows, whatever the cursor. */
  lemma PageExactly<R(!new), C>(
    l: Listing<R, C>, table: seq<R>, dir: Direction, cursor: Option<C>, limit: nat)
    requires Coherent(l) && Keyed(l, table) && limit >= 1
    ensures PageShows(ListPage(l, table, dir, cursor, limit), Wanted(l, table, dir, cursor), By(l, Next), l.toCursor,
                      dir, cursor.Some?, limit)
  {
    var all := Candidates(l, table, dir, cursor);
    var rows := InDisplayOrder(Take(all, limit), dir);
    WantedSorted(l, table, dir, cursor);
    hide Wanted, StrictWeakOrder, Keyed, Candidates, RowsShow, CursorsShow, LeftOut;
    hide DropExtra, Take, InDisplayOrder, By;
    PageRows(l, all, dir, limit, Wanted(l, table, dir, cursor));
    PageCursors(l, all, dir, cursor, limit);
  }

  function InDisplayOrder<R>(kept: seq<R>, dir: Direction): seq<R> {
    if dir == Prev then Reverse(kept) else kept
  }

  lemma PageRows<R(!new), C>(l: Listing<R, C>, all: seq<R>, dir: Direction, limit: nat, asked: R -> bool)
    requires Coherent(l) && StrictWeakOrder(By(l, dir)) && Sorted(all, By(l, dir))
    requires forall x :: x in all <==> asked(x)
    ensures RowsShow(InDisplayOrder(Take(all, limit), dir), asked, By(l, Next), dir, limit)
    ensures LeftOut(InDisplayOrder(Take(all, limit), dir), asked) <==> |all| > limit
  {
    var kept := Take(all, limit);
    TakeSplits(all, By(l, dir), limit);
    LeftOutIff(all, By(l, dir), limit);
    ReverseMembers(kept);
    ShownInOrder(l, kept, dir);
    hide Take, Sorted, StrictWeakOrder, Reverse;
  }

  lemma PageCursors<R(!new), C>(l: Listing<R, C>, all: seq<R>, dir: Direction, cursor: Option<C>, limit: nat)
    requires limit >= 1
    ensures var p := Finish(l, Take(all, limit + 1), dir, cursor, limit);
            && p.rows == InDisplayOrder(Take(all, limit), dir)
            && CursorsShow(p, |all| > limit, l.toCursor, dir, cursor.Some?)
  {
    DropExtraTakes(all, limit);
  }

  lemma ShownInOrder<R(!new), C>(l: Listing<R, C>, kept: seq<R>, dir: Direction)
    requires Coherent(l) && Sorted(kept, By(l, dir))
    ensures Sorted(if dir == Prev then Reverse(kept) else kept, By(l, Next))
  {
    if dir == Prev {
      forall a, b | By(l, Prev)(a, b) ensures By(l, Next)(b, a) {
        assert l.before(Prev, a, b) == l.before(Next, b, a);
      }
      ReverseSorted(kept, By(l, Prev), By(l, Next));
    }
  }

  lemma LeftOutIff<R(!new)>(s: seq<R>, before: (R, R) -> bool, n: nat)
    requires StrictWeakOrder(before) && Sorted(s, before)
    ensures |s| > n <==> exists x :: x in s && x !in Take(s, n)
  {
    if |s| > n {
      forall k | 0 <= k < n ensures s[k] != s[n] {
        assert before(s[k], s[n]);
      }
      assert s[n] in s && s[n] !in Take(s, n);
    }
  }

  lemma PageFacts<R(!new), C>(l: Listing<R, C>, table: seq<R>, last: Option<R>, limit: nat)
    requires Coherent(l) && Keyed(l, table) && limit >= 1
    ensures var rest := Candidates(l, table, Next, CursorOf(l, last));
            var p := ListPage(l, table, Next, CursorOf(l, last), limit);
            && p.rows == Take(rest, limit)
            && (p.nextCursor.Some? <==> |rest| > limit)
            && (p.nextCursor.Some? ==> p.rows != [] && p.nextCursor == CursorOf(l, Some(p.rows[|p.rows| - 1])))
  {
    DropExtraTakes(Candidates(l, table, Next, CursorOf(l, last)), limit);
  }

  /** After a page with a next cursor, the rows still to come are exactly the ones beyond that page. */
  lemma NextCandidates<R(!new), C>(l: Listing<R, C>, table: seq<R>, last: Option<R>, limit: nat)
    requires Coherent(l) && Keyed(l, table) && limit >= 1
    requires |Candidates(l, table, Next, CursorOf(l, last))| > limit
    ensures var rest := Candidates(l, table, Next, CursorOf(l, last));
            Candidates(l, table, Next, CursorOf(l, Some(rest[limit - 1]))) == rest[limit..]
  {
    var rest := Candidates(l, table, Next, CursorOf(l, last));
    var mark := rest[limit - 1];
    var keep := Where(l, Next, CursorOf(l, Some(mark)));
    CandidatesSorted(l, table, last);
    SortedSplit(rest, By(l, Next), limit - 1);
    assert mark in rest;
    forall x ensures x in rest[limit..] <==> x in table && keep(x) {
      if x in table && keep(x) && last.Some? {
        Transitive(By(l, Next), last.value, mark, x);
      }
    }
    SelectUnique(table, keep, By(l, Next), rest[limit..]);
  }

  /** All pages of a walk over a table that does not change. Each page is fetched with the next cursor of
      the one before; the number of rows still to come decreases. */
  ghost function Walk<R(!new), C>(l: Listing<R, C>, table: seq<R>, last: Option<R>, limit: nat): seq<Page<R, C>>
    requires Coherent(l) && Keyed(l, table) && limit >= 1
    decreases |Candidates(l, table, Next, CursorOf(l, last))|
  {
    var p := ListPage(l, table, Next, CursorOf(l, last), limit);
    PageFacts(l, table, last, limit);
    if p.nextCursor.None? then [p]
    else
      NextCandidates(l, table, last, limit);
      [p] + Walk(l, table, Some(p.rows[|p.rows| - 1]), limit)
  }

  ghost function AllRows<R, C>(pages: seq<Page<R, C>>): seq<R> {
    if pages == [] then [] else pages[0].rows + AllRows(pages[1..])
  }

  ghost predicate Finished<R, C>(pages: seq<Page<R, C>>) {
    pages != [] && pages[|pages| - 1].nextCursor.None?
  }

  lemma AllRowsPrepend<R, C>(p: Page<R, C>, tail: seq<Page<R, C>>)
    ensures AllRows([p] + tail) == p.rows + AllRows(tail)
  {
    assert ([p] + tail)[1..] == tail;
  }

  lemma {:induction false} WalkFrom<R(!new), C>(l: Listing<R, C>, table: seq<R>, last: Option<R>, limit: nat)
    requires Coherent(l) && Keyed(l, table) && limit >= 1
    ensures AllRows(Walk(l, table, last, limit)) == Candidates(l, table, Next, CursorOf(l, last))
    ensures Finished(Walk(l, table, last, limit))
    decreases |Candidates(l, table, Next, CursorOf(l, last))|
  {
    hide Candidates, ListPage, StrictWeakOrder, Coherent, Keyed, AllRows;
    var p := ListPage(l, table, Next, CursorOf(l, last), limit);
    PageFacts(l, table, last, limit);
    if p.nextCursor.None? {
      NoRows<R, C>();
      AllRowsPrepend(p, []);
      assert [p] + [] == [p];
    } else {
      var rest := Candidates(l, table, Next, CursorOf(l, last));
      NextCandidates(l, table, last, limit);
      var mark := Some(p.rows[|p.rows| - 1]);
      WalkFrom(l, table, mark, limit);
      AllRowsPrepend(p, Walk(l, table, mark, limit));
      assert rest == rest[..limit] + rest[limit..];
    }
  }

  lemma NoRows<R, C>()
    ensures AllRows<R, C>([]) == []
  {
  }

  /** The concatenated pages of the whole walk are the filtered table in sorted order. */
  lemma WalkListsTable<R(!new), C>(l: Listing<R, C>, table: seq<R>, limit: nat)
    requires Coherent(l) && Keyed(l, table) && limit >= 1
    ensures AllRows(Walk(l, table, None, limit)) == Listed(l, table)
  {
    WalkFrom(l, table, None, limit);
    ForwardCandidates(l, table, 0);
  }

  /** A walk during which the table changes: page i is read from tables[i]. */
  ghost predicate IsWalk<R, C>(
    l: Listing<R, C>, tables: seq<seq<R>>, pages: seq<Page<R, C>>, cursor: Option<C>, limit: nat)
  {
    && |tables| == |pages| > 0
    && pages[0] == ListPage(l, tables[0], Next, cursor, limit)
    && (|pages| > 1 ==> pages[0].nextCursor.Some? && IsWalk(l, tables[1..], pages[1..], pages[0].nextCursor, limit))
  }

  lemma {:induction false} WalkSorted<R(!new), C>(
    l: Listing<R, C>, tables: seq<seq<R>>, pages: seq<Page<R, C>>, last: Option<R>, limit: nat)
    requires Coherent(l) && limit >= 1
    requires forall t :: t in tables ==> Keyed(l, t)
    requires IsWalk(l, tables, pages, CursorOf(l, last), limit)
    ensures Sorted(AllRows(pages), By(l, Next))
    ensures last.Some? ==> forall x :: x in AllRows(pages) ==> l.before(Next, last.value, x)
    decreases |pages|
  {
    hide Candidates, ListPage;
    var before := By(l, Next);
    var head := pages[0].rows;
    PageFacts(l, tables[0], last, limit);
    CandidatesSorted(l, tables[0], last);
    forall x | x in head ensures last.Some? ==> l.before(Next, last.value, x) {
      assert x in Candidates(l, tables[0], Next, CursorOf(l, last));
    }
    if |pages| == 1 {
      assert pages == [pages[0]] && AllRows(pages[1..]) == [];
    } else {
      var mark := head[|head| - 1];
      WalkSorted(l, tables[1..], pages[1..], Some(mark), limit);
      var tail := AllRows(pages[1..]);
      assert mark in head;
      forall i, j | 0 <= i < |head| && 0 <= j < |tail| ensures before(head[i], tail[j]) {
        assert tail[j] in tail && before(mark, tail[j]);
        if i < |head| - 1 { Transitive(before, head[i], mark, tail[j]); }
      }
      forall x | x in tail ensures last.Some? ==> before(last.value, x) {
        if last.Some? { Transitive(before, last.value, mark, x); }
      }
    }
  }

  /** Whatever changes between fetches, the returned sort keys strictly increase along the walk:
      no row with an unchanged key is returned twice. */
  lemma NoKeyTwice<R(!new), C>(
    l: Listing<R, C>, tables: seq<seq<R>>, pages: seq<Page<R, C>>, limit: nat, i: nat, j: nat)
    requires Coherent(l) && limit >= 1
    requires forall t :: t in tables ==> Keyed(l, t)
    requires IsWalk(l, tables, pages, None, limit)
    requires i < j < |AllRows(pages)|
    ensures l.before(Next, AllRows(pages)[i], AllRows(pages)[j])
    ensures !SameKey(l, AllRows(pages)[i], AllRows(pages)[j])
  {
    WalkSorted(l, tables, pages, None, limit);
    assert By(l, Next)(AllRows(pages)[i], AllRows(pages)[j]);
  }

  /** A row with r's sort key is in the table and matches, at this moment. */
  ghost predicate Present<R(!new), C>(l: Listing<R, C>, table: seq<R>, r: R) {
    exists x :: x in table && l.matches(x) && SameKey(l, x, r)
  }

  /** One fetch either shows a present row beyond the cursor, or leaves it beyond the next cursor. */
  lemma PresentRowShownOrBeyond<R(!new), C>(l: Listing<R, C>, table: seq<R>, last: Option<R>, limit: nat, r: R)
    requires Coherent(l) && Keyed(l, table) && limit >= 1 && Present(l, table, r)
    requires last.Some? ==> l.before(Next, last.value, r)
    ensures var p := ListPage(l, table, Next, CursorOf(l, last), limit);
            || (exists y :: y in p.rows && SameKey(l, y, r))
            || (p.nextCursor.Some? && p.rows != [] && l.before(Next, p.rows[|p.rows| - 1], r))
  {
    hide Candidates, ListPage;
    var before := By(l, Next);
    var rest := Candidates(l, table, Next, CursorOf(l, last));
    var head := Take(rest, limit);
    PageFacts(l, table, last, limit);
    CandidatesSorted(l, table, last);
    var x :| x in table && l.matches(x) && SameKey(l, x, r);
    if last.Some? {
      assert before(last.value, r) ==> before(last.value, x) || before(x, r);
    }
    assert x in rest;
    var k :| 0 <= k < |rest| && rest[k] == x;
    if k < limit {
      assert head[k] == x;
    } else {
      var mark := rest[limit - 1];
      assert before(mark, rest[k]);
      assert before(mark, x) ==> before(mark, r) || before(r, x);
    }
  }

  lemma {:induction false} StayingRowFrom<R(!new), C>(
    l: Listing<R, C>, tables: seq<seq<R>>, pages: seq<Page<R, C>>, last: Option<R>, limit: nat, r: R)
    requires Coherent(l) && limit >= 1
    requires forall t :: t in tables ==> Keyed(l, t) && Present(l, t, r)
    requires IsWalk(l, tables, pages, CursorOf(l, last), limit) && Finished(pages)
    requires last.Some? ==> l.before(Next, last.value, r)
    ensures exists y :: y in AllRows(pages) && SameKey(l, y, r)
    decreases |pages|
  {
    hide Candidates, ListPage;
    var head := pages[0].rows;
    assert tables[0] in tables;
    PresentRowShownOrBeyond(l, tables[0], last, limit, r);
    if y :| y in head && SameKey(l, y, r) {
      assert y in AllRows(pages);
    } else {
      PageFacts(l, tables[0], last, limit);
      StayingRowFrom(l, tables[1..], pages[1..], Some(head[|head| - 1]), limit, r);
      var y :| y in AllRows(pages[1..]) && SameKey(l, y, r);
      assert y in AllRows(pages);
    }
  }

  /** A finished walk returns every row that stayed, with its key unchanged, exactly once. */
  lemma StayingRowReturnedOnce<R(!new), C>(
    l: Listing<R, C>, tables: seq<seq<R>>, pages: seq<Page<R, C>>, limit: nat, r: R)
    requires Coherent(l) && limit >= 1
    requires forall t :: t in tables ==> Keyed(l, t) && Present(l, t, r)
    requires IsWalk(l, tables, pages, None, limit) && Finished(pages)
    ensures exists i :: 0 <= i < |AllRows(pages)| && SameKey(l, AllRows(pages)[i], r)
    ensures forall i, j :: 0 <= i < j < |AllRows(pages)| && SameKey(l, AllRows(pages)[i], r)
                           ==> !SameKey(l, AllRows(pages)[j], r)
  {
    var all := AllRows(pages);
    StayingRowFrom(l, tables, pages, None, limit, r);
    var y :| y in all && SameKey(l, y, r);
    var k :| 0 <= k < |all| && all[k] == y;
    WalkSorted(l, tables, pages, None, limit);
    forall i, j | 0 <= i < j < |all| && SameKey(l, all[i], r) ensures !SameKey(l, all[j], r) {
      assert By(l, Next)(all[i], all[j]);
      assert l.before(Next, all[i], r) || l.before(Next, r, all[j]) by {
        assert By(l, Next)(all[i], all[j]) ==> By(l, Next)(all[i], r) || By(l, Next)(r, all[j]);
      }
    }
  }
}
